/** Listing the keypairs and choosing a free index. */
module KeypairIndex {
  import opened Nvram
  import opened RecordChain
  import opened KeypairRecord
  import opened KeypairStore

  // BOAT_MAX_KEYPAIR_NUM persistent keypairs and the one-time keypair
  const LIST_SIZE: nat := MAX_RECORDS + 1

  // The reads of one record, and how many of them it takes to know its index
  const RECORD_READS: nat := 11
  const INDEX_READS: nat := 3

  /** How many indices are known after n reads of records, the last of which may have
      failed: an index is known once its record is read further. */
  function Known(n: nat): nat {
    (n + RECORD_READS - INDEX_READS - 1) / RECORD_READS
  }

  function Indices(ks: seq<Keypair>): (s: set<int>)
    ensures forall i :: i in s <==> exists k :: k in ks && k.index as int == i
  {
    set k | k in ks :: k.index as int
  }

  method LoadOne(dev: Device, offset: nat, slot0: Keypair, ghost ks: seq<Keypair>, ghost i: nat)
    returns (code: int, slot: Keypair, next: nat)
    requires HoldsKeypairs(dev.mem[..], ks) && i < |ks| && offset == Offset(Entries(ks), i)
    modifies dev`log
    ensures old(dev.log) < dev.log && code <= SUCCESS
    ensures |dev.log| <= |old(dev.log)| + RECORD_READS
    ensures code == SUCCESS ==> |dev.log| == |old(dev.log)| + RECORD_READS
    ensures code == SUCCESS <==> dev.CleanSince(|old(dev.log)|)
    ensures code == SUCCESS ==> slot == ks[i] && next == Offset(Entries(ks), i + 1)
    ensures slot.index == if |dev.log| > |old(dev.log)| + INDEX_READS then ks[i].index else slot0.index
  {
    KeypairAt(dev.mem[..], ks, i);
    var len;
    code, slot, len := FromNvram(dev, offset, slot0, ks[i]);
    next := offset + len;
  }

  /** The first i keypairs have been put into the slots from `at` on. */
  ghost predicate Loaded(before: seq<Keypair>, after: seq<Keypair>, at: nat, ks: seq<Keypair>, i: nat) {
    i <= |ks| && at + i <= |before| && after == before[..at] + ks[..i] + before[at + i..]
  }

  /** The indices of the first m keypairs have been put into the slots from `at` on; the other
      slots have the indices they had. */
  ghost predicate Touched(before: seq<Keypair>, after: seq<Keypair>, at: nat, ks: seq<Keypair>, m: nat) {
    && m <= |ks| && at + |ks| <= |before| == |after|
    && after[..at] == before[..at]
    && forall j :: at <= j < |before| ==>
      after[j].index == if j < at + m then ks[j - at].index else before[j].index
  }

  lemma LoadedNext(before: seq<Keypair>, after: seq<Keypair>, at: nat, ks: seq<Keypair>, i: nat, slot: Keypair)
    requires Loaded(before, after, at, ks, i) && i < |ks| && at + |ks| <= |before|
    ensures at + i < |after| == |before| && after[at + i] == before[at + i]
    ensures slot == ks[i] ==> Loaded(before, after[at + i := slot], at, ks, i + 1)
    ensures slot.index == ks[i].index ==> Touched(before, after[at + i := slot], at, ks, i + 1)
    ensures slot.index == before[at + i].index ==> Touched(before, after[at + i := slot], at, ks, i)
  {
    var next := after[at + i := slot];
    assert next == before[..at] + ks[..i] + [slot] + before[at + i + 1..];
    if slot == ks[i] {
      assert ks[..i + 1] == ks[..i] + [slot];
      assert next == before[..at] + ks[..i + 1] + before[at + i + 1..];
    }
    assert next[..at] == before[..at];
  }

  lemma LoadedAll(before: seq<Keypair>, after: seq<Keypair>, at: nat, ks: seq<Keypair>)
    requires Loaded(before, after, at, ks, |ks|)
    ensures Touched(before, after, at, ks, |ks|) && after[at..at + |ks|] == ks
  {
  }

  /** Parses all records of one file into the slots from `at` on. */
  method LoadAll(dev: Device, num: nat, at: nat, slots: array<Keypair>, ghost ks: seq<Keypair>) returns (code: int)
    requires HoldsKeypairs(dev.mem[..], ks) && num == |ks| && at + num <= slots.Length
    modifies dev`log, slots
    ensures old(dev.log) <= dev.log && code <= SUCCESS
    ensures code == SUCCESS <==> dev.CleanSince(|old(dev.log)|)
    ensures code == SUCCESS ==> |dev.log| == |old(dev.log)| + RECORD_READS * num && slots[at..at + num] == ks
    ensures Touched(old(slots[..]), slots[..], at, ks, Known(|dev.log| - |old(dev.log)|))
  {
    ghost var before := slots[..];
    code := SUCCESS;
    var offset, i := HEADER_LEN, 0;
    assert Offset(Entries(ks), 0) == HEADER_LEN;
    while i < num
      invariant 0 <= i <= num && offset == Offset(Entries(ks), i) && code == SUCCESS
      invariant old(dev.log) <= dev.log && dev.CleanSince(|old(dev.log)|)
      invariant |dev.log| == |old(dev.log)| + RECORD_READS * i
      invariant Loaded(before, slots[..], at, ks, i)
    {
      code, offset := LoadInto(dev, offset, at, slots, ks, i, before);
      if code != SUCCESS {
        return;
      }
      i := i + 1;
    }
    LoadedAll(before, slots[..], at, ks);
  }

  /** Parses record i into its slot. */
  method LoadInto(dev: Device, offset: nat, at: nat, slots: array<Keypair>, ghost ks: seq<Keypair>, i: nat,
                  ghost before: seq<Keypair>)
    returns (code: int, next: nat)
    requires HoldsKeypairs(dev.mem[..], ks) && i < |ks| && offset == Offset(Entries(ks), i)
    requires at + |ks| <= slots.Length && Loaded(before, slots[..], at, ks, i)
    modifies dev`log, slots
    ensures old(dev.log) <= dev.log && code <= SUCCESS
    ensures code == SUCCESS <==> dev.CleanSince(|old(dev.log)|)
    ensures code == SUCCESS ==> |dev.log| == |old(dev.log)| + RECORD_READS
    ensures code == SUCCESS ==> next == Offset(Entries(ks), i + 1) && Loaded(before, slots[..], at, ks, i + 1)
    ensures code != SUCCESS ==> |old(dev.log)| < |dev.log| <= |old(dev.log)| + RECORD_READS
    ensures code != SUCCESS ==>
      Touched(before, slots[..], at, ks, if |dev.log| > |old(dev.log)| + INDEX_READS then i + 1 else i)
  {
    ghost var was := slots[..];
    LoadedNext(before, was, at, ks, i, ks[i]);
    var slot;
    code, slot, next := LoadOne(dev, offset, slots[at + i], ks, i);
    LoadedNext(before, was, at, ks, i, slot);
    slots[at + i] := slot;
    assert slots[..] == was[at + i := slot];
  }

  /** Lists one file into the slots from `at` on; a count that cannot be read or checked is 0. */
  method LoadFile(dev: Device, at: nat, slots: array<Keypair>, ghost ks: seq<Keypair>)
    returns (header: int, code: int, num: nat, ghost m: nat)
    requires HoldsKeypairs(dev.mem[..], ks) && at + |ks| <= slots.Length
    modifies dev`log, slots
    ensures old(dev.log) < dev.log && code <= SUCCESS
    ensures dev.log[|old(dev.log)|] <==> header == SUCCESS
    ensures num == if header == SUCCESS then |ks| else 0
    ensures code == SUCCESS <==> dev.CleanSince(|old(dev.log)|)
    ensures code == SUCCESS ==> slots[at..at + num] == ks
    ensures header == SUCCESS && code == SUCCESS ==> |dev.log| == |old(dev.log)| + 1 + RECORD_READS * |ks|
    ensures header != SUCCESS ==> |dev.log| == |old(dev.log)| + 1
    ensures m == Known(|dev.log| - |old(dev.log)| - 1) && (dev.CleanSince(|old(dev.log)|) ==> m == |ks|)
    ensures Touched(old(slots[..]), slots[..], at, ks[..num], m)
  {
    var n;
    header, n := ReadHeader(dev, 0, Entries(ks));
    code, num := header, if header != SUCCESS || n < 0 then 0 else n;
    if header == SUCCESS {
      ghost var before := |dev.log|;
      assert ks[..num] == ks;
      code := LoadAll(dev, num, at, slots, ks);
      assert dev.CleanSince(|old(dev.log)|) ==> dev.CleanSince(before);
    } else {
      assert !dev.log[|old(dev.log)|];
    }
    m := Known(|dev.log| - |old(dev.log)| - 1);
  }

  /** Lists the persistent keypairs, then the one-time keypair. */
  method List(flash: Device, ram: Device, slots: array<Keypair>, ghost ks: seq<Keypair>, ghost rs: seq<Keypair>)
    returns (code: int, persistentNum: nat, num: nat, ghost m: nat)
    requires flash != ram && slots.Length == LIST_SIZE && |rs| <= 1 && |ks| <= MAX_RECORDS
    requires HoldsKeypairs(flash.mem[..], ks) && HoldsKeypairs(ram.mem[..], rs)
    modifies flash`log, ram`log, slots
    ensures old(flash.log) < flash.log && old(ram.log) <= ram.log && code <= SUCCESS
    ensures persistentNum == if flash.log[|old(flash.log)|] then |ks| else 0
    ensures persistentNum <= num <= persistentNum + |rs|
    ensures flash.CleanSince(|old(flash.log)|) && ram.CleanSince(|old(ram.log)|) ==> code == SUCCESS
    ensures code == SUCCESS ==> persistentNum + |rs| == num <= LIST_SIZE && slots[persistentNum..num] == rs
    ensures code == SUCCESS || flash.CleanSince(|old(flash.log)|) ==> slots[..persistentNum] == ks[..persistentNum]
    ensures m == Known(|flash.log| - |old(flash.log)| - 1) && (flash.CleanSince(|old(flash.log)|) ==> m == |ks|)
    ensures Listed(old(slots[..]), slots[..], ks[..persistentNum], m, num, rs)
  {
    var header, ramNum;
    ghost var n;
    ghost var m0 := slots[..];
    header, code, persistentNum, m := LoadFile(flash, 0, slots, ks);
    ghost var m1 := slots[..];
    num := persistentNum;
    TouchedTwice(m0, m1, m1, ks[..persistentNum], m, [], 0, rs);
    if header == SUCCESS && code != SUCCESS {
      return;
    }
    assert header == SUCCESS ==> m1[..persistentNum] == slots[0..0 + persistentNum];
    header, code, ramNum, n := LoadFile(ram, persistentNum, slots, rs);
    num := num + ramNum;
    TouchedTwice(m0, m1, slots[..], ks[..persistentNum], m, rs[..ramNum], n, rs);
    assert slots[..persistentNum] == m1[..persistentNum];
  }

  /** The first num slots list the persistent keypairs `ks`, of which the first m indices are
      filled in, and behind them perhaps the one-time keypair. */
  ghost predicate Listed(before: seq<Keypair>, after: seq<Keypair>, ks: seq<Keypair>, m: nat, num: nat, rs: seq<Keypair>) {
    && m <= |ks| <= num <= |before| == |after|
    && (forall j :: 0 <= j < |ks| ==> after[j].index == if j < m then ks[j].index else before[j].index)
    && forall j :: |ks| <= j < num ==>
      after[j].index == before[j].index || (rs != [] && after[j].index == rs[0].index)
  }

  lemma TouchedTwice(m0: seq<Keypair>, m1: seq<Keypair>, m2: seq<Keypair>,
                     a: seq<Keypair>, m: nat, b: seq<Keypair>, n: nat, rs: seq<Keypair>)
    requires Touched(m0, m1, 0, a, m) && b <= rs && |rs| <= 1
    requires (m1 == m2 && b == []) || Touched(m1, m2, |a|, b, n)
    ensures Listed(m0, m2, a, m, |a| + |b|, rs)
  {
    forall j | 0 <= j < |a| ensures m2[j].index == if j < m then a[j].index else m0[j].index {
      assert m2[j] == m2[..|a|][j] == m1[..|a|][j] == m1[j];
    }
    forall j | |a| <= j < |a| + |b| ensures m2[j].index == m0[j].index || (rs != [] && m2[j].index == rs[0].index) {
      assert m1[j].index == m0[j].index;
    }
  }

  /** Whether one of the first num slots has this index. */
  method InUse(slots: array<Keypair>, num: nat, index: int) returns (found: bool)
    requires num <= slots.Length
    ensures found <==> index in Indices(slots[..num])
  {
    var j := 0;
    while j < num && slots[j].index != index
      invariant 0 <= j <= num
      invariant forall l :: 0 <= l < j ==> slots[l].index != index
    {
      j := j + 1;
    }
    found := j < num;
    if found {
      assert slots[..num][j] == slots[j];
    } else {
      forall k | k in slots[..num] ensures k.index != index {
        var l :| 0 <= l < num && slots[..num][l] == k;
        assert slots[l] == k;
      }
    }
  }

  /** Fewer than MAX_RECORDS keypairs cannot use all of the indices 1 to MAX_RECORDS. */
  lemma Pigeonhole(ks: seq<Keypair>) returns (free: int)
    requires |ks| < MAX_RECORDS
    ensures 1 <= free <= MAX_RECORDS && free !in Indices(ks)
  {
    var s := seq(|ks|, i requires 0 <= i < |ks| => ks[i].index as int);
    forall x | x in Indices(ks) ensures x in s {
      var i :| 0 <= i < |ks| && ks[i].index as int == x;
      assert s[i] == x;
    }
    SetBound(Indices(ks), s);
    free := SomeFree(Indices(ks));
  }

  /** What a free-index search answers that has come to know the indices of the first m keypairs. */
  function Chosen(ks: seq<Keypair>, m: nat): nat
    requires m <= |ks|
  {
    LeastFree(Indices(ks[..m]), 1)
  }

  /** The first index in 1..MAX_RECORDS that no listed keypair has. A listing cut short by a
      failing read is used as far as it got: m is the number of keypairs it came to know. */
  method FreeIndex(flash: Device, ram: Device, ghost ks: seq<Keypair>, ghost rs: seq<Keypair>) returns (r: int, ghost m: nat)
    requires flash != ram && |rs| <= 1 && |ks| <= MAX_RECORDS && (rs == [] || rs[0].index == 0)
    requires HoldsKeypairs(flash.mem[..], ks) && HoldsKeypairs(ram.mem[..], rs)
    modifies flash`log, ram`log
    ensures old(flash.log) < flash.log && old(ram.log) <= ram.log
    ensures r == ERROR_INDEX_EXCEED || 1 <= r <= MAX_RECORDS
    ensures r == ERROR_INDEX_EXCEED <==> |ks| == MAX_RECORDS && flash.log[|old(flash.log)|]
    ensures m == Known(|flash.log| - |old(flash.log)| - 1) <= |ks|
    ensures r > 0 ==> r == Chosen(ks, m)
    ensures flash.CleanSince(|old(flash.log)|) ==> m == |ks|
  {
    var slots, persistentNum, num;
    slots, persistentNum, num, m := Scan(flash, ram, ks, rs);
    if persistentNum == MAX_RECORDS {
      return ERROR_INDEX_EXCEED, m;
    }
    r := Search(slots, num, ks, m);
  }

  method Search(slots: array<Keypair>, num: nat, ghost ks: seq<Keypair>, ghost m: nat) returns (r: int)
    requires num <= slots.Length && m < MAX_RECORDS && Shows(Indices(slots[..num]), ks, m)
    ensures 1 <= r <= MAX_RECORDS && r == Chosen(ks, m)
  {
    ghost var free := Pigeonhole(ks[..m]);
    assert free !in Indices(slots[..num]);
    r := FirstFree(slots, num);
    ChosenByShown(Indices(slots[..num]), ks, m, r, free);
  }

  lemma ChosenByShown(used: set<int>, ks: seq<Keypair>, m: nat, r: int, free: int)
    requires Shows(used, ks, m) && 1 <= free <= MAX_RECORDS && free !in used
    requires r == ERROR_INDEX_EXCEED || 1 <= r <= MAX_RECORDS
    requires r > 0 ==> r !in used
    requires forall i :: 1 <= i < r ==> i in used
    requires r < 0 ==> forall i :: 1 <= i <= MAX_RECORDS ==> i in used
    ensures 1 <= r <= MAX_RECORDS && r == Chosen(ks, m)
  {
    assert r < 0 ==> free in used;
    forall i | 1 <= i < r ensures i in Indices(ks[..m]) {
      assert i in used;
    }
    LeastIs(Indices(ks[..m]), r);
  }

  /** The indices from 1 on are those of the first m keypairs. */
  ghost predicate Shows(used: set<int>, ks: seq<Keypair>, m: nat) {
    m <= |ks| && forall i :: i >= 1 ==> (i in used <==> i in Indices(ks[..m]))
  }

  /** When the index found is in use after all: exactly when one of the keypairs the search did
      not come to know has it. */
  lemma ChosenInUse(ks: seq<Keypair>, m: nat)
    requires m <= |ks| && m < MAX_RECORDS
    ensures Chosen(ks, m) <= MAX_RECORDS
    ensures Chosen(ks, m) in Indices(ks) <==> Chosen(ks, m) in Indices(ks[m..])
  {
    var free := Pigeonhole(ks[..m]);
    assert ks == ks[..m] + ks[m..];
    assert Chosen(ks, m) <= free;
  }

  /** The listing a search works on. */
  method Scan(flash: Device, ram: Device, ghost ks: seq<Keypair>, ghost rs: seq<Keypair>)
    returns (slots: array<Keypair>, persistentNum: nat, num: nat, ghost m: nat)
    requires flash != ram && |rs| <= 1 && |ks| <= MAX_RECORDS && (rs == [] || rs[0].index == 0)
    requires HoldsKeypairs(flash.mem[..], ks) && HoldsKeypairs(ram.mem[..], rs)
    modifies flash`log, ram`log
    ensures fresh(slots) && num <= slots.Length
    ensures old(flash.log) < flash.log && old(ram.log) <= ram.log
    ensures persistentNum == if flash.log[|old(flash.log)|] then |ks| else 0
    ensures m == Known(|flash.log| - |old(flash.log)| - 1) <= persistentNum
    ensures Shows(Indices(slots[..num]), ks, m)
    ensures flash.CleanSince(|old(flash.log)|) ==> m == |ks|
  {
    var code;
    slots := new Keypair[LIST_SIZE](_ => Keypair(0, [], [], [], []));
    ghost var empty := slots[..];
    code, persistentNum, num, m := List(flash, ram, slots, ks, rs);
    ListedIndices(empty, slots[..], ks[..persistentNum], m, num, rs, ks);
  }

  /** The indices from 1 on that are found in the slots of a listing are those that were filled in. */
  lemma ListedIndices(empty: seq<Keypair>, slots: seq<Keypair>, listed: seq<Keypair>, m: nat, num: nat,
                      rs: seq<Keypair>, ks: seq<Keypair>)
    requires Listed(empty, slots, listed, m, num, rs) && listed <= ks
    requires (rs == [] || rs[0].index == 0) && forall j :: 0 <= j < |empty| ==> empty[j].index == 0
    ensures Shows(Indices(slots[..num]), ks, m)
  {
    forall j | 0 <= j < num ensures slots[j].index == if j < m then ks[j].index else 0 {
    }
    forall i | i >= 1 && i in Indices(slots[..num]) ensures i in Indices(ks[..m]) {
      var j :| 0 <= j < num && slots[..num][j].index == i;
      assert slots[j].index == i;
      assert ks[..m][j] == ks[j];
    }
    forall i | i in Indices(ks[..m]) ensures i in Indices(slots[..num]) {
      var j :| 0 <= j < m && ks[..m][j].index == i;
      assert slots[..num][j] == slots[j];
    }
  }

  /** The nested search for the first unused index. */
  method FirstFree(slots: array<Keypair>, num: nat) returns (r: int)
    requires num <= slots.Length
    ensures r == ERROR_INDEX_EXCEED || 1 <= r <= MAX_RECORDS
    ensures r > 0 ==> r !in Indices(slots[..num])
    ensures forall i :: 1 <= i < r ==> i in Indices(slots[..num])
    ensures r < 0 ==> forall i :: 1 <= i <= MAX_RECORDS ==> i in Indices(slots[..num])
  {
    var i := 0;
    while i < MAX_RECORDS
      invariant 0 <= i <= MAX_RECORDS
      invariant forall l :: 1 <= l <= i ==> l in Indices(slots[..num])
    {
      var used := InUse(slots, num, i + 1);
      if !used {
        return i + 1;
      }
      i := i + 1;
    }
    return ERROR_INDEX_EXCEED;
  }
}
