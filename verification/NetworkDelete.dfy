/** Deleting a network: what it removes, what it leaves alone, and what a device failure at
    each point does to the file. */
module NetworkDelete {
  import opened Bytes
  import opened Nvram
  import opened RecordChain
  import opened NetworkRecord
  import opened NetworkStore

  /** What is left of a list when item i is deleted, if the operations from the lowering of the
      count on ended as in `ops`. The last item is gone as soon as the count is lowered, because
      its recovery writes the old count over the item and not over the header. */
  function AfterErasure<T>(s: seq<T>, i: nat, ops: seq<bool>): seq<T>
    requires i < |s|
  {
    if i == |s| - 1 && ops != [] && ops[0] then Without(s, i) else AfterRemoval(s, i, ops)
  }

  /** Whether such a deletion reports success. */
  predicate Erased(n: nat, i: nat, ops: seq<bool>) {
    ops != [] && (if i == n - 1 then ops[0] && ops[|ops| - 1] else AllDone(ops))
  }

  /** How a deletion of network i of n proceeds from the lowering of the count on. For the last network
      a second write follows if the first one fails; for another one everything goes through, or it
      stops at the first failure, and the old count is written back only if that was the write of
      the tail. */
  predicate Proceeds(n: nat, i: nat, log: seq<bool>, start: nat) {
    && start < |log|
    && (!log[start] ==> |log| == start + 1)
    && (log[start] && i == n - 1 ==> |log| > start + 1 && |log| == if log[start + 1] then start + 2 else start + 3)
    && (log[start] && i != n - 1 ==>
          || (forall k :: start <= k < |log| ==> log[k])
          || (|log| <= start + (n + 2 - i) && StopsAt(log, start))
          || (|log| == start + (n + 4 - i) && StopsAt(log[..|log| - 1], start)))
  }

  lemma LastProceeds(n: nat, log0: seq<bool>, log: seq<bool>)
    requires n > 0 && log0 + [true] < log && |log| == if log[|log0| + 1] then |log0| + 2 else |log0| + 3
    ensures Proceeds(n, n - 1, log, |log0|)
  {
    assert log[|log0|];
  }

  lemma InnerProceeds(n: nat, i: nat, log0: seq<bool>, log1: seq<bool>, log: seq<bool>, reached: bool)
    requires i < n - 1 && log0 + [true] <= log1 <= log && StopsAt(log1, |log0| + 1)
    requires |log1| <= |log0| + 1 + (n + 2 - i) && (reached <==> |log1| == |log0| + 1 + (n + 2 - i))
    requires |log| == |log1| + (if reached then 1 else 0)
    ensures Proceeds(n, i, log, |log0|)
  {
    assert log1[|log0|] && log[|log0|] && StopsAt(log1, |log0|);
    if reached {
      assert log[..|log| - 1] == log1;
    } else {
      assert log == log1;
    }
  }

  /** Removes entry i.
      - The last entry is gone as soon as the count is lowered: a failing tombstone is answered
        by writing the old count over the entry instead of over the header, so it stays gone,
        and the call reports the result of that write.
      - For another entry, a failure before the compacting write returns with the count still
        lowered, which drops the LAST entry; only a failing compacting write is recovered from. */
  method DeleteEntry(dev: Device, num: nat, i: nat, offset: nat, next: nat, ghost es: seq<seq<byte>>)
    returns (code: int)
    requires Holds(dev.mem[..], PREFIX_LEN, es) && i < num == |es|
    requires offset == Offset(es, i) && next == Offset(es, i + 1)
    modifies dev`log, dev.mem
    ensures old(dev.log) < dev.log && code <= SUCCESS
    ensures Holds(dev.mem[..], PREFIX_LEN, AfterErasure(es, i, dev.log[|old(dev.log)|..]))
    ensures code == SUCCESS <==> Erased(num, i, dev.log[|old(dev.log)|..])
    ensures Proceeds(num, i, dev.log, |old(dev.log)|)
  {
    ghost var m, log0, after := dev.mem[..], dev.log, es;
    code := dev.Write(0, Header(num - 1));
    if code == SUCCESS {
      code, after := DeleteLowered(dev, num, i, offset, next, m, es, log0);
      FirstOp(es, i, log0, dev.log, code == SUCCESS, after);
    } else {
      NotLowered(es, i, log0, dev.log);
    }
  }

  /** How an erasure ended: whether it succeeded, and what is left. */
  ghost predicate Outcome<T>(s: seq<T>, i: nat, ops: seq<bool>, done: bool, after: seq<T>)
    requires i < |s|
  {
    after == AfterErasure(s, i, ops) && (done <==> Erased(|s|, i, ops))
  }

  lemma FirstOp<T>(s: seq<T>, i: nat, log0: seq<bool>, log: seq<bool>, done: bool, after: seq<T>)
    requires i < |s| && log0 + [true] <= log && Outcome(s, i, [true] + log[|log0| + 1..], done, after)
    ensures Outcome(s, i, log[|log0|..], done, after)
  {
    assert log[|log0|..] == [true] + log[|log0| + 1..];
  }

  lemma NotLowered<T>(s: seq<T>, i: nat, log0: seq<bool>, log: seq<bool>)
    requires i < |s| && log == log0 + [false]
    ensures Outcome(s, i, log[|log0|..], false, s) && Proceeds(|s|, i, log, |log0|)
  {
    assert log[|log0|..] == [false];
  }

  /** The rest, with the count lowered. */
  method DeleteLowered(dev: Device, num: nat, i: nat, offset: nat, next: nat, ghost m: seq<byte>, ghost es: seq<seq<byte>>,
                       ghost log0: seq<bool>)
    returns (code: int, ghost after: seq<seq<byte>>)
    requires Holds(m, PREFIX_LEN, es) && i < num == |es| && HEADER_LEN <= |m|
    requires dev.mem[..] == Overwrite(m, 0, Header(num - 1)) && dev.log == log0 + [true]
    requires offset == Offset(es, i) && next == Offset(es, i + 1)
    modifies dev`log, dev.mem
    ensures old(dev.log) < dev.log && code <= SUCCESS && Holds(dev.mem[..], PREFIX_LEN, after)
    ensures Outcome(es, i, [true] + dev.log[|old(dev.log)|..], code == SUCCESS, after)
    ensures Proceeds(num, i, dev.log, |log0|)
  {
    if i == num - 1 {
      code, after := DeleteLast(dev, num, offset, m, es, log0);
    } else {
      PackAround(es, i);
      code, after := DeleteInner(dev, num, i, offset, next, m, es, log0);
    }
  }

  method DeleteLast(dev: Device, num: nat, offset: nat, ghost m: seq<byte>, ghost es: seq<seq<byte>>, ghost log0: seq<bool>)
    returns (code: int, ghost after: seq<seq<byte>>)
    requires Holds(m, PREFIX_LEN, es) && num == |es| > 0 && HEADER_LEN <= |m|
    requires dev.mem[..] == Overwrite(m, 0, Header(num - 1)) && offset == Offset(es, num - 1) && dev.log == log0 + [true]
    modifies dev`log, dev.mem
    ensures old(dev.log) < dev.log && code <= SUCCESS && Holds(dev.mem[..], PREFIX_LEN, after)
    ensures Outcome(es, num - 1, [true] + dev.log[|old(dev.log)|..], code == SUCCESS, after)
    ensures Proceeds(num, num - 1, dev.log, |log0|)
  {
    ghost var start, m1 := |dev.log|, dev.mem[..];
    LastGone(m, m1, es, offset, [0, 0, 0]);
    LastGone(m, m1, es, offset, Header(num));
    code := dev.Write(offset, [0, 0, 0]);
    if code != SUCCESS {
      code := dev.Write(offset, Header(num));
    }
    after := Without(es, num - 1);
    LastErased(es, [true] + dev.log[start..]);
    LastProceeds(num, log0, dev.log);
  }

  lemma LastGone(m: seq<byte>, m1: seq<byte>, es: seq<seq<byte>>, offset: nat, junk: seq<byte>)
    requires Holds(m, PREFIX_LEN, es) && es != [] && HEADER_LEN <= |m| && |junk| <= PREFIX_LEN
    requires m1 == Overwrite(m, 0, Header(|es| - 1)) && offset == Offset(es, |es| - 1)
    ensures offset + |junk| <= |m1| && Holds(Overwrite(m1, offset, junk), PREFIX_LEN, Without(es, |es| - 1))
    ensures Holds(m1, PREFIX_LEN, Without(es, |es| - 1))
  {
    Lowered(m, PREFIX_LEN, es);
    EntryAt(m, PREFIX_LEN, es, |es| - 1);
    Tombstoned(m, PREFIX_LEN, es, junk);
    assert Without(es, |es| - 1) == es[..|es| - 1];
  }

  lemma LastErased<T>(s: seq<T>, ops: seq<bool>)
    requires s != [] && |ops| > 1 && ops[0]
    ensures AfterErasure(s, |s| - 1, ops) == Without(s, |s| - 1)
    ensures Erased(|s|, |s| - 1, ops) <==> ops[|ops| - 1]
  {
  }

  method DeleteInner(dev: Device, num: nat, i: nat, offset: nat, next: nat, ghost m: seq<byte>, ghost es: seq<seq<byte>>,
                       ghost log0: seq<bool>)
    returns (code: int, ghost after: seq<seq<byte>>)
    requires Holds(m, PREFIX_LEN, es) && i < num - 1 && num == |es| && HEADER_LEN <= |m|
    requires dev.mem[..] == Overwrite(m, 0, Header(num - 1)) && dev.log == log0 + [true]
    requires offset == Offset(es, i) && next == Offset(es, i + 1) == offset + |es[i]|
    modifies dev`log, dev.mem
    ensures old(dev.log) < dev.log && code <= SUCCESS && Holds(dev.mem[..], PREFIX_LEN, after)
    ensures Outcome(es, i, [true] + dev.log[|old(dev.log)|..], code == SUCCESS, after)
    ensures Proceeds(num, i, dev.log, |log0|)
  {
    ghost var start := dev.log;
    var reached;
    code, reached := Compact(dev, PREFIX_LEN, num, i, offset, next - offset, m, es);
    if code != SUCCESS {
      ghost var log1 := dev.log;
      code := Recover(dev, num, code, reached, m, es);
      after := if dev.log[|dev.log| - 1] then es else es[..num - 1];
      InnerFailed(es, i, start, log1, dev.log, after);
      InnerProceeds(num, i, log0, log1, dev.log, reached);
    } else {
      after := Without(es, i);
      InnerDone(es, i, log0, dev.log);
    }
  }

  lemma InnerDone<T>(s: seq<T>, i: nat, log0: seq<bool>, log: seq<bool>)
    requires i < |s| - 1 && log0 + [true] <= log && forall k :: |log0| + 1 <= k < |log| ==> log[k]
    ensures Outcome(s, i, [true] + log[|log0| + 1..], true, Without(s, i)) && Proceeds(|s|, i, log, |log0|)
  {
    OpsDone(s, i, log, |log0| + 1);
    assert log[|log0|];
  }

  lemma InnerFailed<T>(s: seq<T>, i: nat, log0: seq<bool>, log1: seq<bool>, log: seq<bool>, after: seq<T>)
    requires i < |s| - 1 && log0 < log1 <= log && !log1[|log1| - 1]
    requires after == if log[|log| - 1] then s else s[..|s| - 1]
    ensures Outcome(s, i, [true] + log[|log0|..], false, after)
  {
    assert !log[|log1| - 1];
    OpsFailed(s, i, log, |log0|, |log1| - 1);
  }

  /** Behind a failure: the old count is written back only if the tail had been read. */
  method Recover(dev: Device, num: nat, failure: int, reached: bool, ghost m: seq<byte>, ghost es: seq<seq<byte>>)
    returns (code: int)
    requires Holds(m, PREFIX_LEN, es) && num == |es| > 0 && HEADER_LEN <= |m|
    requires dev.mem[..] == Overwrite(m, 0, Header(num - 1))
    requires failure < SUCCESS && dev.log != [] && !dev.log[|dev.log| - 1]
    modifies dev`log, dev.mem
    ensures old(dev.log) <= dev.log && code < SUCCESS && |dev.log| == |old(dev.log)| + (if reached then 1 else 0)
    ensures Holds(dev.mem[..], PREFIX_LEN, if dev.log[|dev.log| - 1] then es else es[..num - 1])
  {
    Lowered(m, PREFIX_LEN, es);
    code := failure;
    if reached {
      code := dev.Write(0, Header(num));
      if code == SUCCESS {
        code := ERROR_FILE_WRITE_FAIL;
      }
    }
  }

  /** The outcomes of a deletion whose first operation lowered the count and is not in the log. */
  lemma OpsFailed<T>(s: seq<T>, i: nat, log: seq<bool>, start: nat, bad: nat)
    requires i < |s| - 1 && start <= bad < |log| && !log[bad]
    ensures var ops := [true] + log[start..];
      !Erased(|s|, i, ops) && AfterErasure(s, i, ops) == if log[|log| - 1] then s else s[..|s| - 1]
  {
    AllDoneFrom(log, start);
    assert ([true] + log[start..])[1..] == log[start..];
  }

  lemma OpsDone<T>(s: seq<T>, i: nat, log: seq<bool>, start: nat)
    requires i < |s| - 1 && start <= |log| && forall k :: start <= k < |log| ==> log[k]
    ensures var ops := [true] + log[start..]; Erased(|s|, i, ops) && AfterErasure(s, i, ops) == Without(s, i)
  {
    AllDoneFrom(log, start);
    assert ([true] + log[start..])[1..] == log[start..];
  }

  /** Operations of a deletion before it lowers the count, with the network at position i. */
  function ErasureReads(i: nat): nat {
    1 + (3 * i + 3)
  }

  /** A deletion that reports success leaves the list without the network, and one that does not
      leaves the whole list or drops its last network. */
  lemma ErasureOutcome<T>(s: seq<T>, i: nat, ops: seq<bool>)
    requires i < |s|
    ensures var after := AfterErasure(s, i, ops);
      if Erased(|s|, i, ops) then after == Without(s, i) else after == s || after == s[..|s| - 1]
  {
    if i == |s| - 1 {
      assert Without(s, i) == s[..i];
    }
  }

  /** What the file holds after a call to delete a persistent network, whose operations are those
      behind the first `start`. */
  function AfterDelete(ns: seq<Network>, p: Protocol, index: byte, log: seq<bool>, start: nat): seq<Network> {
    var i := Position(ns, p, index);
    if index > MAX_RECORDS || i == |ns| then ns else AfterErasure(ns, i, OpsFrom(log, start + ErasureReads(i)))
  }

  /** Whether such a call reports success. */
  predicate DeleteDone(ns: seq<Network>, p: Protocol, index: byte, log: seq<bool>, start: nat) {
    var i := Position(ns, p, index);
    index <= MAX_RECORDS && i < |ns| && Erased(|ns|, i, OpsFrom(log, start + ErasureReads(i)))
  }

  /** How such a call proceeds once it has found the network. */
  predicate DeleteProceeds(ns: seq<Network>, p: Protocol, index: byte, log: seq<bool>, start: nat) {
    var i := Position(ns, p, index);
    index <= MAX_RECORDS && i < |ns| && |log| > start + ErasureReads(i) ==>
      Proceeds(|ns|, i, log, start + ErasureReads(i))
  }

  lemma ProceedsReached(ns: seq<Network>, p: Protocol, index: byte, log: seq<bool>, start: nat, before: nat, i: nat)
    requires i == Position(ns, p, index) < |ns| && before == start + ErasureReads(i) && Proceeds(|ns|, i, log, before)
    ensures DeleteProceeds(ns, p, index, log, start)
  {
  }

  lemma DeleteReached(ns: seq<Network>, p: Protocol, index: byte, log: seq<bool>, start: nat, before: nat)
    requires index <= MAX_RECORDS && Position(ns, p, index) < |ns|
    requires before == start + ErasureReads(Position(ns, p, index)) < |log|
    ensures DeleteDone(ns, p, index, log, start) <==> Erased(|ns|, Position(ns, p, index), log[before..])
    ensures AfterDelete(ns, p, index, log, start) == AfterErasure(ns, Position(ns, p, index), log[before..])
  {
    DeletedAt(ns, p, index, log, start, Position(ns, p, index), OpsFrom(log, before));
  }

  lemma DeletedAt(ns: seq<Network>, p: Protocol, index: byte, log: seq<bool>, start: nat, i: nat, ops: seq<bool>)
    requires index <= MAX_RECORDS && i == Position(ns, p, index) < |ns| && ops == OpsFrom(log, start + ErasureReads(i))
    ensures DeleteDone(ns, p, index, log, start) <==> Erased(|ns|, i, ops)
    ensures AfterDelete(ns, p, index, log, start) == AfterErasure(ns, i, ops)
  {
  }

  lemma DeleteNotReached(ns: seq<Network>, p: Protocol, index: byte, log: seq<bool>, start: nat)
    requires Position(ns, p, index) < |ns| ==> |log| <= start + ErasureReads(Position(ns, p, index))
    ensures !DeleteDone(ns, p, index, log, start)
    ensures AfterDelete(ns, p, index, log, start) == ns
    ensures DeleteProceeds(ns, p, index, log, start)
  {
  }

  /** Deletes the persistent network of protocol p with the given index. What is left depends on
      the outcomes of the operations alone. */
  method DeletePersistent(dev: Device, p: Protocol, index: byte, ghost ns: seq<Network>)
    returns (code: int, ghost after: seq<Network>)
    requires HoldsNetworks(dev.mem[..], ns) && index >= 1
    modifies dev`log, dev.mem
    ensures old(dev.log) <= dev.log && code <= SUCCESS
    ensures HoldsNetworks(dev.mem[..], after) && after == AfterDelete(ns, p, index, dev.log, |old(dev.log)|)
    ensures code == SUCCESS <==> DeleteDone(ns, p, index, dev.log, |old(dev.log)|)
    ensures DeleteProceeds(ns, p, index, dev.log, |old(dev.log)|)
    ensures dev.CleanSince(|old(dev.log)|) ==>
      code == (if index > MAX_RECORDS then ERROR_INDEX_EXCEED
               else if Position(ns, p, index) < |ns| then SUCCESS else ERROR_INEXISTENCE)
  {
    after := ns;
    if index > MAX_RECORDS {
      return ERROR_INDEX_EXCEED, ns;
    }
    var num, i, offset, next;
    code, num, i, offset, next := Find(dev, p, index, ns);
    if code == SUCCESS {
      ghost var before := |dev.log|;
      code, after := DeleteAt(dev, num, i, offset, next, ns, p, index, |old(dev.log)|);
      assert dev.CleanSince(|old(dev.log)|) ==> dev.CleanSince(before);
    } else {
      DeleteNotReached(ns, p, index, dev.log, |old(dev.log)|);
    }
  }

  /** The reads of a deletion: count and search. */
  method Find(dev: Device, p: Protocol, index: byte, ghost ns: seq<Network>)
    returns (code: int, num: nat, i: nat, offset: nat, next: nat)
    requires HoldsNetworks(dev.mem[..], ns) && index <= MAX_RECORDS
    modifies dev`log
    ensures old(dev.log) < dev.log && code <= SUCCESS
    ensures Position(ns, p, index) < |ns| ==> |dev.log| <= |old(dev.log)| + ErasureReads(Position(ns, p, index))
    ensures code == SUCCESS ==> num == |ns| && i == Position(ns, p, index) < num
    ensures code == SUCCESS ==> |dev.log| == |old(dev.log)| + ErasureReads(i)
    ensures code == SUCCESS ==> offset == Offset(Entries(ns), i) && next == Offset(Entries(ns), i + 1)
    ensures dev.CleanSince(|old(dev.log)|) ==>
      code == if Position(ns, p, index) < |ns| then SUCCESS else ERROR_INEXISTENCE
  {
    num, i, offset, next := 0, 0, 0, 0;
    var n;
    code, n := ReadHeader(dev, PREFIX_LEN, Entries(ns));
    if code != SUCCESS {
      assert !dev.log[|dev.log| - 1];
      return;
    }
    if n <= 0 {
      code := ERROR_INEXISTENCE;
      return;
    }
    num := n;
    ghost var before := |dev.log|;
    code, i, offset, next := Locate(dev, p, index, num, true, ns);
    assert dev.CleanSince(|old(dev.log)|) ==> dev.CleanSince(before);
    if code == SUCCESS && i >= num {
      code := ERROR_INEXISTENCE;
    }
  }

  lemma EntriesAfterErasure(ns: seq<Network>, i: nat, ops: seq<bool>)
    requires i < |ns| && AllWellFormed(ns)
    ensures AllWellFormed(AfterErasure(ns, i, ops))
    ensures Entries(AfterErasure(ns, i, ops)) == AfterErasure(Entries(ns), i, ops)
  {
    EntriesWithout(ns, i);
    EntriesWithout(ns, |ns| - 1);
  }

  method DeleteAt(dev: Device, num: nat, i: nat, offset: nat, next: nat, ghost ns: seq<Network>,
                  ghost p: Protocol, ghost index: byte, ghost start: nat)
    returns (code: int, ghost after: seq<Network>)
    requires HoldsNetworks(dev.mem[..], ns) && i < num == |ns|
    requires offset == Offset(Entries(ns), i) && next == Offset(Entries(ns), i + 1)
    requires index <= MAX_RECORDS && i == Position(ns, p, index) && |dev.log| == start + ErasureReads(i)
    modifies dev`log, dev.mem
    ensures old(dev.log) < dev.log && code <= SUCCESS
    ensures HoldsNetworks(dev.mem[..], after) && after == AfterDelete(ns, p, index, dev.log, start)
    ensures code == SUCCESS <==> DeleteDone(ns, p, index, dev.log, start)
    ensures DeleteProceeds(ns, p, index, dev.log, start)
    ensures dev.CleanSince(|old(dev.log)|) ==> code == SUCCESS
  {
    ghost var before := |dev.log|;
    code := DeleteEntry(dev, num, i, offset, next, Entries(ns));
    EntriesAfterErasure(ns, i, dev.log[before..]);
    after := AfterErasure(ns, i, dev.log[before..]);
    AllDoneFrom(dev.log, before);
    DeleteReached(ns, p, index, dev.log, start, before);
    ProceedsReached(ns, p, index, dev.log, start, before, i);
  }

  /** Deletes a network. Index 0 stands for the one-time network in the RAM file, which is dropped
      whatever its protocol; the others are in the flash file. */
  method Delete(flash: Device, ram: Device, p: Protocol, index: byte, ghost ns: seq<Network>, ghost rs: seq<Network>)
    returns (code: int, ghost after: seq<Network>)
    requires flash != ram && flash.mem != ram.mem
    requires HoldsNetworks(flash.mem[..], ns) && HoldsNetworks(ram.mem[..], rs)
    modifies flash`log, flash.mem, ram`log, ram.mem
    ensures old(flash.log) <= flash.log && old(ram.log) <= ram.log && code <= SUCCESS
    ensures index == 0 ==> flash.log == old(flash.log) && flash.mem[..] == old(flash.mem[..])
    ensures index == 0 ==> HoldsNetworks(ram.mem[..], if code == SUCCESS then [] else rs)
    ensures index == 0 && ram.CleanSince(|old(ram.log)|) ==> code == if rs == [] then ERROR_INEXISTENCE else SUCCESS
    ensures index > 0 ==> ram.log == old(ram.log) && ram.mem[..] == old(ram.mem[..])
    ensures index > 0 ==> HoldsNetworks(flash.mem[..], after)
    ensures index > 0 ==> after == AfterDelete(ns, p, index, flash.log, |old(flash.log)|)
    ensures index > 0 && code == SUCCESS ==> Position(ns, p, index) < |ns| && after == Without(ns, Position(ns, p, index))
    ensures index > 0 && flash.CleanSince(|old(flash.log)|) ==>
      code == (if index > MAX_RECORDS then ERROR_INDEX_EXCEED
               else if Position(ns, p, index) < |ns| then SUCCESS else ERROR_INEXISTENCE)
  {
    after := ns;
    if index == 0 {
      code := DeleteOnetime(ram, rs);
    } else {
      code, after := DeletePersistent(flash, p, index, ns);
      if code == SUCCESS {
        var i := Position(ns, p, index);
        ErasureOutcome(ns, i, OpsFrom(flash.log, |old(flash.log)| + ErasureReads(i)));
      }
    }
  }

  method DeleteOnetime(dev: Device, ghost rs: seq<Network>) returns (code: int)
    requires HoldsNetworks(dev.mem[..], rs)
    modifies dev`log, dev.mem
    ensures old(dev.log) <= dev.log && code <= SUCCESS
    ensures HoldsNetworks(dev.mem[..], if code == SUCCESS then [] else rs)
    ensures dev.CleanSince(|old(dev.log)|) ==> code == if rs == [] then ERROR_INEXISTENCE else SUCCESS
  {
    var num;
    code, num := ReadHeader(dev, PREFIX_LEN, Entries(rs));
    if code != SUCCESS {
      assert !dev.log[|dev.log| - 1];
      return;
    }
    if num <= 0 {
      return ERROR_INEXISTENCE;
    }
    code := dev.Write(0, [0, 0, 0, 0]);
    if code == SUCCESS {
      assert CheckHeader([0, 0, 0, 0]) < 0;
    } else {
      assert !dev.log[|dev.log| - 1];
    }
  }

  // What other protocols see

  predicate Distinct(ns: seq<Network>) {
    forall i, j :: 0 <= i < j < |ns| ==> ns[i].index != ns[j].index
  }

  /** Removing a network of protocol p leaves the list of every other protocol alone and takes
      exactly that one network out of its own. */
  lemma ListsAfterRemoval(ns: seq<Network>, i: nat, q: Protocol)
    requires i < |ns|
    ensures ns[i].protocol != q ==> Only(Without(ns, i), q) == Only(ns, q)
    ensures ns[i].protocol == q ==>
      Only(ns, q) == Only(ns[..i], q) + [ns[i]] + Only(ns[i + 1..], q) &&
      Only(Without(ns, i), q) == Only(ns[..i], q) + Only(ns[i + 1..], q)
  {
    OnlySnoc(ns, q, i);
    OnlyConcat(ns[..i + 1], ns[i + 1..], q);
    assert ns == ns[..i + 1] + ns[i + 1..];
    OnlyConcat(ns[..i], ns[i + 1..], q);
  }

  /** Every search for another (protocol, index) pair finds the same network as before. */
  lemma SearchAfterRemoval(ns: seq<Network>, i: nat, q: Protocol, index: byte)
    requires i < |ns| && !Is(ns[i], q, index)
    ensures var a, b := Position(ns, q, index), Position(Without(ns, i), q, index);
      && (a < |ns| <==> b < |Without(ns, i)|)
      && (a < |ns| ==> Without(ns, i)[b] == ns[a])
  {
    var a, b := Position(ns, q, index), Position(Without(ns, i), q, index);
    SamePlace(ns, Without(ns, i), i, q, index, a, b);
  }

  predicate First(ns: seq<Network>, q: Protocol, index: byte, a: nat) {
    a <= |ns| && (a < |ns| ==> Is(ns[a], q, index)) && forall j :: 0 <= j < a ==> !Is(ns[j], q, index)
  }

  lemma SamePlace(ns: seq<Network>, rest: seq<Network>, i: nat, q: Protocol, index: byte, a: nat, b: nat)
    requires i < |ns| && rest == Without(ns, i) && !Is(ns[i], q, index)
    requires First(ns, q, index, a) && First(rest, q, index, b)
    ensures (a < |ns| <==> b < |rest|) && (a < |ns| ==> rest[b] == ns[a])
  {
    if a < |ns| {
      WithoutPlace(ns, i, a);
    }
    if b < |rest| {
      WithoutPlace(ns, i, b);
    }
  }

  /** With distinct indices the deleted pair itself is no longer found, and indices stay distinct. */
  lemma GoneAfterRemoval(ns: seq<Network>, i: nat)
    requires i < |ns| && Distinct(ns)
    ensures Distinct(Without(ns, i))
    ensures Position(Without(ns, i), ns[i].protocol, ns[i].index) == |ns| - 1
    ensures forall j :: 0 <= j < |ns| - 1 ==> Without(ns, i)[j] == if j < i then ns[j] else ns[j + 1]
  {
    WithoutAt(ns, i);
  }

  /** Creating with an index that no network has keeps indices distinct over all protocols. */
  lemma DistinctAfterCreate(ns: seq<Network>, n: Network)
    requires Distinct(ns) && n.index as int !in Indices(ns)
    ensures Distinct(ns + [n])
  {
    forall i | 0 <= i < |ns| ensures ns[i].index != n.index {
      assert ns[i] in ns;
    }
  }

  /** Exactly when a deletion of a network other than the last loses another one: the last
      network is still found unless the count was lowered and the last operation failed, and the
      one to be deleted is still found unless everything went through. */
  lemma LossExactly(ns: seq<Network>, i: nat, ops: seq<bool>)
    requires Distinct(ns) && i < |ns| - 1
    ensures var after, a, b := AfterErasure(ns, i, ops), ns[i], ns[|ns| - 1];
      && (Position(after, b.protocol, b.index) < |after| <==> ops == [] || !ops[0] || ops[|ops| - 1])
      && (Position(after, a.protocol, a.index) < |after| <==> ops == [] || !AllDone(ops))
  {
    var last := |ns| - 1;
    if ops == [] || !ops[0] {
      FoundAt(ns, last);
      FoundAt(ns, i);
    } else if AllDone(ops) {
      AllDoneIff(ops);
      GoneAfterRemoval(ns, i);
      SearchAfterRemoval(ns, i, ns[last].protocol, ns[last].index);
      FoundAt(ns, last);
    } else if ops[|ops| - 1] {
      FoundAt(ns, last);
      FoundAt(ns, i);
    } else {
      GoneAfterRemoval(ns, last);
      assert ns[..last] == Without(ns, last);
      assert ns[..last][i] == ns[i];
    }
  }

  lemma FoundAt(ns: seq<Network>, i: nat)
    requires i < |ns|
    ensures Position(ns, ns[i].protocol, ns[i].index) < |ns|
  {
  }

  /** A region where that happens: the count has been lowered and the next operation, the first
      read of the walk over the tail, fails. The last network is gone, whatever its protocol, and
      the one to be deleted is still there. */
  lemma LossInRegion(m: seq<byte>, ns: seq<Network>, i: nat)
    requires HoldsNetworks(m, ns) && Distinct(ns) && i < |ns| - 1
    ensures HEADER_LEN <= |m|
    ensures var after := AfterErasure(ns, i, [true, false]);
      && HoldsNetworks(Overwrite(m, 0, Header(|ns| - 1)), after) && after == ns[..|ns| - 1]
      && Position(after, ns[i].protocol, ns[i].index) == i
      && Position(after, ns[|ns| - 1].protocol, ns[|ns| - 1].index) == |after|
  {
    Lowered(m, PREFIX_LEN, Entries(ns));
    EntriesWithout(ns, |ns| - 1);
    LossExactly(ns, i, [true, false]);
    assert ns[..|ns| - 1][i] == ns[i];
  }
}
