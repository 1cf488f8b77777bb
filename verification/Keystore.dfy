/** The keypair API over its two files: persistent keypairs in flash, one one-time keypair in RAM. */
module Keystore {
  import opened Bytes
  import opened Nvram
  import opened RecordChain
  import opened KeypairRecord
  import opened KeypairStore
  import opened KeypairIndex
  import opened Runs

  const ERROR_KEY_CREATE_FAIL: int := -10210001

  datatype Option<T> = None | Some(value: T)

  /** What the crypto port delivers for a new key. */
  datatype Material = Material(format: seq<byte>, ktype: seq<byte>, pubkey: seq<byte>)

  predicate GoodMaterial(m: Material) {
    |m.format| == ENUM_LEN && |m.ktype| == ENUM_LEN && |m.pubkey| == PUBKEY_LEN
  }

  /** A C string. */
  type Name = n: seq<byte> | 0 !in n witness []

  const DEFAULT_PREFIX: seq<byte> := [0x6B, 0x65, 0x79, 0x70, 0x61, 0x69, 0x72] // "keypair"

  /** The record of a new keypair; an unnamed one is called "keypair" and its index digit. */
  function NewKeypair(index: byte, name: Option<Name>, m: Material): (k: Keypair)
    requires index <= MAX_RECORDS && GoodMaterial(m)
    ensures WellFormed(k) && k.index == index
    ensures Fits(k) <==> name.None? || |name.value| <= 65455
  {
    var n: seq<byte> := if name.Some? then name.value else DEFAULT_PREFIX + [0x30 + index];
    var k := Keypair(index, n, m.format, m.ktype, m.pubkey);
    StorableNames(k);
    k
  }

  /** A keypair with this index that holds exactly the key that was delivered, under the name that
      was asked for or "keypair" and the index digit. */
  predicate Bears(k: Keypair, index: int, name: Option<Name>, m: Material) {
    && k.index as int == index
    && k.format == m.format && k.ktype == m.ktype && k.pubkey == m.pubkey
    && match name
       case Some(n) => k.name == n
       case None => |k.name| == 8 && k.name[..7] == [0x6B, 0x65, 0x79, 0x70, 0x61, 0x69, 0x72] && k.name[7] as int == 0x30 + index
  }

  lemma NewBears(index: byte, name: Option<Name>, m: Material)
    requires index <= MAX_RECORDS && GoodMaterial(m)
    ensures Bears(NewKeypair(index, name, m), index, name, m)
  {
  }

  predicate Proper(ks: seq<Keypair>) {
    |ks| <= MAX_RECORDS && forall i :: 0 <= i < |ks| ==> 1 <= ks[i].index <= MAX_RECORDS
  }

  predicate Distinct(ks: seq<Keypair>) {
    forall i, j :: 0 <= i < j < |ks| ==> ks[i].index != ks[j].index
  }

  lemma ProperAfterDelete(m: seq<byte>, ks: seq<Keypair>, index: byte, log: seq<bool>, start: nat)
    requires Proper(ks) && HoldsKeypairs(m, ks)
    ensures Proper(AfterDelete(ks, index, log, start))
    ensures Position(ks, index) < |ks| ==>
      Fits(ks[Position(ks, index)]) && ks[Position(ks, index)].index == index
  {
    var p := Position(ks, index);
    if p < |ks| {
      assert ks[p] in ks;
      ProperAfterRemoval(ks, p, OpsFrom(log, start + RemovalReads(p)));
    }
  }

  lemma ProperAfterRemoval(ks: seq<Keypair>, i: nat, ops: seq<bool>)
    requires Proper(ks) && i < |ks|
    ensures Proper(AfterRemoval(ks, i, ops)) && Proper(Without(ks, i))
  {
    WithoutAt(ks, i);
  }

  // What creations and deletions leave, in terms of the outcomes of their operations, which are
  // those of the log behind the first `start`

  /** Whether a deletion gets to storing the keypair once more, because its private key is still
      there: when the removal has gone through. */
  ghost predicate Restoring(ks: seq<Keypair>, index: byte, prikeyDeleted: bool, log: seq<bool>, start: nat) {
    var p := Position(ks, index);
    index <= MAX_RECORDS && !prikeyDeleted && p < |ks| && !FailedWithin(log, start, RemovalOps(|ks|, p)) &&
    start + RemovalOps(|ks|, p) < |log|
  }

  ghost function Remaining(ks: seq<Keypair>, index: byte, prikeyDeleted: bool, log: seq<bool>, start: nat): seq<Keypair> {
    var p := Position(ks, index);
    if index > MAX_RECORDS then ks
    else if Restoring(ks, index, prikeyDeleted, log, start) then
      AfterStore(Without(ks, p), false, ks[p], log, start + RemovalOps(|ks|, p))
    else AfterDelete(ks, index, log, start)
  }

  /** Whether what a deletion leaves is known to be that. */
  ghost predicate DeleteKnown(ks: seq<Keypair>, index: byte, prikeyDeleted: bool, log: seq<bool>, start: nat) {
    var p := Position(ks, index);
    Restoring(ks, index, prikeyDeleted, log, start) ==>
      StoreKnown(|ks| - 1, false, ks[p], log, start + RemovalOps(|ks|, p))
  }

  /** What it leaves otherwise. */
  ghost predicate DeleteBlind(m: seq<byte>, ks: seq<Keypair>, index: byte) {
    var p := Position(ks, index);
    p < |ks| && LeftBlind(m, Without(ks, p), ks[p])
  }

  /** Whether a creation gets to deleting the keypair again, because its private key could not be
      stored. */
  ghost predicate Undoing(ks: seq<Keypair>, k: Keypair, prikeyStored: bool, log: seq<bool>, start: nat) {
    !prikeyStored && Stored(|ks|, false, k, log, start)
  }

  /** The first operation of that deletion. */
  function UndoStart(ks: seq<Keypair>, log: seq<bool>, start: nat): nat {
    start + StoreOps(Base(|ks|, false, log, start))
  }

  /** What a creation with the index chosen leaves, whether that is known, and what it leaves
      otherwise. */
  ghost function AfterCreate(ks: seq<Keypair>, k: Keypair, prikeyStored: bool, prikeyDeleted: bool,
                             log: seq<bool>, start: nat): seq<Keypair> {
    var stored := AfterStore(ks, false, k, log, start);
    if Undoing(ks, k, prikeyStored, log, start)
    then Remaining(stored, k.index, prikeyDeleted, log, UndoStart(ks, log, start)) else stored
  }

  ghost predicate CreateKnown(ks: seq<Keypair>, k: Keypair, prikeyStored: bool, prikeyDeleted: bool,
                              log: seq<bool>, start: nat) {
    if Undoing(ks, k, prikeyStored, log, start)
    then DeleteKnown(AfterStore(ks, false, k, log, start), k.index, prikeyDeleted, log, UndoStart(ks, log, start))
    else StoreKnown(|ks|, false, k, log, start)
  }

  ghost predicate CreateBlind(m: seq<byte>, ks: seq<Keypair>, k: Keypair, prikeyStored: bool, log: seq<bool>, start: nat) {
    if Undoing(ks, k, prikeyStored, log, start)
    then DeleteBlind(m, AfterStore(ks, false, k, log, start), k.index)
    else LeftBlind(m, ks, k)
  }

  lemma NotRestoring(ks: seq<Keypair>, index: byte, prikeyDeleted: bool, log: seq<bool>, start: nat)
    requires index <= MAX_RECORDS
    requires prikeyDeleted || Position(ks, index) == |ks| || FailedWithin(log, start, RemovalOps(|ks|, Position(ks, index)))
    ensures DeleteKnown(ks, index, prikeyDeleted, log, start)
    ensures Remaining(ks, index, prikeyDeleted, log, start) == AfterDelete(ks, index, log, start)
  {
  }

  lemma RestoreReached(ks: seq<Keypair>, index: byte, log: seq<bool>, start: nat, cut: nat)
    requires index <= MAX_RECORDS && Position(ks, index) < |ks|
    requires cut == start + RemovalOps(|ks|, Position(ks, index)) < |log|
    requires forall k :: start <= k < cut ==> log[k]
    ensures var p := Position(ks, index);
      && (DeleteKnown(ks, index, false, log, start) <==> StoreKnown(|ks| - 1, false, ks[p], log, cut))
      && Remaining(ks, index, false, log, start) == AfterStore(Without(ks, p), false, ks[p], log, cut)
  {
    assert Restoring(ks, index, false, log, start);
  }

  lemma NotUndoing(ks: seq<Keypair>, k: Keypair, prikeyStored: bool, prikeyDeleted: bool, log: seq<bool>, start: nat,
                   m: seq<byte>)
    requires !Undoing(ks, k, prikeyStored, log, start)
    ensures CreateKnown(ks, k, prikeyStored, prikeyDeleted, log, start) <==> StoreKnown(|ks|, false, k, log, start)
    ensures AfterCreate(ks, k, prikeyStored, prikeyDeleted, log, start) == AfterStore(ks, false, k, log, start)
    ensures CreateBlind(m, ks, k, prikeyStored, log, start) <==> LeftBlind(m, ks, k)
  {
  }

  /** The operations of the deletion follow those of the store. */
  lemma UndoReached(ks: seq<Keypair>, k: Keypair, prikeyDeleted: bool, before: seq<bool>, log: seq<bool>, start: nat,
                    m: seq<byte>)
    requires start < |before| == UndoStart(ks, before, start) && before <= log
    requires Stored(|ks|, false, k, before, start)
    ensures var l := AfterStore(ks, false, k, before, start);
      && (CreateKnown(ks, k, false, prikeyDeleted, log, start) <==> DeleteKnown(l, k.index, prikeyDeleted, log, |before|))
      && AfterCreate(ks, k, false, prikeyDeleted, log, start) == Remaining(l, k.index, prikeyDeleted, log, |before|)
      && (CreateBlind(m, ks, k, false, log, start) <==> DeleteBlind(m, l, k.index))
  {
    StoredStays(|ks|, k, before, log, start);
    assert UndoStart(ks, log, start) == |before|;
    assert Undoing(ks, k, false, log, start);
    assert AfterStore(ks, false, k, log, start) == AfterStore(ks, false, k, before, start);
  }

  lemma StoredStays(n: nat, k: Keypair, before: seq<bool>, log: seq<bool>, start: nat)
    requires start < |before| && start + StoreOps(Base(n, false, before, start)) <= |before| && before <= log
    ensures HeaderRead(log, start) <==> HeaderRead(before, start)
    ensures Stored(n, false, k, log, start) <==> Stored(n, false, k, before, start)
  {
    assert log[start] == before[start];
    var from, ops := start + 1, Base(n, false, before, start) + 3;
    if FailedWithin(before, from, ops) {
      var j :| from <= j < |before| && j < from + ops && !before[j];
      assert !log[j];
    }
    if FailedWithin(log, from, ops) {
      var j :| from <= j < |log| && j < from + ops && !log[j];
      assert !before[j];
    }
  }

  /** A creation that goes through has appended the new keypair. */
  lemma CreatedLast(ks: seq<Keypair>, index: byte, name: Option<Name>, m: Material, prikeyDeleted: bool, log: seq<bool>, start: nat)
    requires index <= MAX_RECORDS && GoodMaterial(m) && Stored(|ks|, false, NewKeypair(index, name, m), log, start)
    ensures var k := NewKeypair(index, name, m); var after := AfterCreate(ks, k, true, prikeyDeleted, log, start);
      CreateKnown(ks, k, true, prikeyDeleted, log, start) && after != [] && Bears(after[|after| - 1], index, name, m)
  {
    NewBears(index, name, m);
  }

  /** All that a deletion that reports failure may leave; with the private key still there, the
      keypair may have been stored once more, alone if that store could not read the header, or
      may be gone. */
  predicate Spared(ks: seq<Keypair>, index: byte, prikeyDeleted: bool, after: seq<Keypair>) {
    var p := Position(ks, index);
    after == ks ||
    (p < |ks| && (after == ks[..|ks| - 1] ||
                  (!prikeyDeleted &&
                   (after == Without(ks, p) + [ks[p]] || after == Without(ks, p) || after == [ks[p]]))))
  }

  /** All that a creation may leave whose private key could not be stored. */
  predicate CreateSpared(ks: seq<Keypair>, k: Keypair, after: seq<Keypair>) {
    after == ks || Spared(ks + [k], k.index, false, after) || Spared([k], k.index, false, after)
  }

  /** The answer to a creation with the index chosen, and the list it leaves. */
  ghost predicate CreateOutcome(ks: seq<Keypair>, index: byte, name: Option<Name>, m: Material,
                                prikeyStored: bool, prikeyDeleted: bool,
                                log: seq<bool>, at: nat, r: int, known: bool, after: seq<Keypair>)
    requires index <= MAX_RECORDS && GoodMaterial(m)
  {
    var k := NewKeypair(index, name, m);
    && (r > 0 ==> known && after != [] && Bears(after[|after| - 1], r, name, m))
    && (r > 0 <==> prikeyStored && Stored(|ks|, false, k, log, at)) && (r > 0 ==> r == k.index as int)
    && (known <==> CreateKnown(ks, k, prikeyStored, prikeyDeleted, log, at))
    && after == AfterCreate(ks, k, prikeyStored, prikeyDeleted, log, at)
  }

  /** The one-time keypair after a store. A store that fails behind its first write has put the
      new keypair where the earlier one stood. */
  ghost function AfterOnetime(rs: seq<Keypair>, k: Keypair, log: seq<bool>, start: nat): seq<Keypair> {
    if Stored(|rs|, true, k, log, start) || (rs != [] && |log| >= start + StoreOps(0)) then [k] else rs
  }

  lemma OnetimeStays(n: nat, k: Keypair, before: seq<bool>, log: seq<bool>, start: nat)
    requires start + StoreOps(0) == |before| && before <= log && Stored(n, true, k, before, start)
    ensures Stored(n, true, k, log, start)
  {
    assert log[start] == before[start];
    assert forall j :: start < j < |before| ==> log[j] == before[j];
  }

  lemma OnetimeBlind(m: seq<byte>, rs: seq<Keypair>, k: Keypair)
    requires |rs| <= 1 && LeftBlind(m, rs, k)
    ensures HoldsKeypairs(m, if rs == [] then rs else [k])
  {
    LeftBlindMeaning(m, rs, k);
    assert rs != [] ==> [k] + rs[1..] == [k];
  }

  /** Empties a file that is not empty. */
  method Clear(dev: Device, ghost ks: seq<Keypair>) returns (r: int)
    requires HoldsKeypairs(dev.mem[..], ks)
    modifies dev`log, dev.mem
    ensures old(dev.log) < dev.log && r <= SUCCESS
    ensures HoldsKeypairs(dev.mem[..], if r == SUCCESS then [] else ks)
    ensures r == SUCCESS <==> ks != [] && !FailedWithin(dev.log, |old(dev.log)|, 2)
    ensures dev.CleanSince(|old(dev.log)|) ==> r == if ks == [] then ERROR_INEXISTENCE else SUCCESS
  {
    var num;
    r, num := ReadHeader(dev, 0, Entries(ks));
    if r != SUCCESS {
      assert !dev.log[|old(dev.log)|];
      return;
    }
    if num <= 0 {
      return ERROR_INEXISTENCE;
    }
    r := dev.Write(0, [0, 0, 0, 0]);
    if r == SUCCESS {
      assert CheckHeader([0, 0, 0, 0]) < 0;
    } else {
      assert !dev.log[|old(dev.log)| + 1];
    }
  }

  lemma CleanBefore(log0: seq<bool>, log1: seq<bool>, log: seq<bool>)
    requires log0 <= log1 <= log
    ensures (forall k :: |log0| <= k < |log| ==> log[k]) ==>
      (forall k :: |log0| <= k < |log1| ==> log1[k]) && forall k :: |log1| <= k < |log| ==> log[k]
  {
    assert forall k :: |log0| <= k < |log1| ==> log1[k] == log[k];
  }

  class Store {
    const flash: Device
    const ram: Device
    ghost var persistent: seq<Keypair>
    ghost var onetime: seq<Keypair>

    ghost predicate InFlash()
      reads this`persistent, flash.mem
    {
      HoldsKeypairs(flash.mem[..], persistent) && Proper(persistent)
    }

    ghost predicate InRam()
      reads this`onetime, ram.mem
    {
      HoldsKeypairs(ram.mem[..], onetime) && |onetime| <= 1 && (onetime == [] || onetime[0].index == 0)
    }

    ghost predicate Valid()
      reads this, flash.mem, ram.mem
    {
      flash != ram && flash.mem != ram.mem && InFlash() && InRam()
    }

    /** Two files that carry no valid header. */
    constructor (flash: Device, ram: Device)
      requires flash != ram && flash.mem != ram.mem && Blank(flash.mem[..]) && Blank(ram.mem[..])
      ensures Valid() && this.flash == flash && this.ram == ram
      ensures persistent == [] && onetime == []
    {
      this.flash, this.ram := flash, ram;
      persistent, onetime := [], [];
    }

    /** Creates the one-time keypair, replacing an earlier one. */
    method CreateOnetime(name: Option<Name>, made: Option<Material>, prikeyStored: bool) returns (r: int)
      requires Valid() && (made.Some? ==> GoodMaterial(made.value))
      modifies this`onetime, ram`log, ram.mem
      ensures Valid() && old(ram.log) <= ram.log && r <= SUCCESS
      ensures made.None? ==> r == ERROR_KEY_CREATE_FAIL && onetime == old(onetime)
      ensures r == SUCCESS ==> made.Some? && |onetime| == 1 && Bears(onetime[0], 0, name, made.value)
      ensures made.Some? ==>
        var rs, k, start := old(onetime), NewKeypair(0, name, made.value), |old(ram.log)|;
        && (r == SUCCESS <==> prikeyStored && Stored(|rs|, true, k, ram.log, start))
        && onetime == if !prikeyStored && Stored(|rs|, true, k, ram.log, start) &&
                         !FailedWithin(ram.log, start + StoreOps(0), 2)
                      then [] else AfterOnetime(rs, k, ram.log, start)
    {
      if made.None? {
        return ERROR_KEY_CREATE_FAIL;
      }
      var k := NewKeypair(0, name, made.value);
      NewBears(0, name, made.value);
      r := StoreOnetime(k);
      if r == SUCCESS && !prikeyStored {
        ghost var before := ram.log;
        r := DeleteOnetime();
        r := ERROR;
        OnetimeStays(|old(onetime)|, k, before, ram.log, |old(ram.log)|);
      }
    }

    method StoreOnetime(k: Keypair) returns (r: int)
      requires Valid() && WellFormed(k) && k.index == 0
      modifies this`onetime, ram`log, ram.mem
      ensures Valid() && old(ram.log) < ram.log && r <= SUCCESS
      ensures r == SUCCESS <==> Stored(|old(onetime)|, true, k, ram.log, |old(ram.log)|)
      ensures r == SUCCESS ==> |ram.log| == |old(ram.log)| + StoreOps(0)
      ensures onetime == AfterOnetime(old(onetime), k, ram.log, |old(ram.log)|)
    {
      ghost var rs, start := onetime, |ram.log|;
      r, onetime := StoreData(ram, true, k, onetime);
      onetime := AfterOnetime(rs, k, ram.log, start);
      if !StoreKnown(|rs|, true, k, ram.log, start) {
        OnetimeBlind(ram.mem[..], rs, k);
      }
    }

    /** Creates a persistent keypair. `at` is the number of operations before the store and m the
        number of keypairs the free-index search came to know, and `index` is what it chose. `known`
        is false only if a store that could not read the header has failed behind its first write. */
    method CreatePersistent(name: Option<Name>, made: Option<Material>, prikeyStored: bool, prikeyDeleted: bool)
      returns (r: int, known: bool, ghost at: nat, ghost m: nat, ghost index: byte)
      requires Valid() && (made.Some? ==> GoodMaterial(made.value))
      modifies this`persistent, flash`log, flash.mem, ram`log
      ensures old(flash.log) < flash.log && old(ram.log) <= ram.log && r != 0 && r <= MAX_RECORDS
      ensures |old(flash.log)| < at <= |flash.log| && m == Known(at - |old(flash.log)| - 1) <= |old(persistent)|
      ensures at == |flash.log| ==> known && r < 0 && persistent == old(persistent)
      ensures at < |flash.log| ==> made.Some? && 1 <= index <= MAX_RECORDS && index as int == Chosen(old(persistent), m)
      ensures at < |flash.log| ==>
        CreateOutcome(old(persistent), index, name, made.value,
                      prikeyStored, prikeyDeleted, flash.log, at, r, known, persistent)
      ensures known ==> Valid()
      ensures known && at < |flash.log| && !prikeyStored ==>
        CreateSpared(old(persistent), NewKeypair(index, name, made.value), persistent)
      ensures !known ==> at < |flash.log|
      ensures !known ==>
        CreateBlind(flash.mem[..], old(persistent), NewKeypair(index, name, made.value),
                    prikeyStored, flash.log, at)
      ensures flash.CleanSince(|old(flash.log)|) ==>
        known && CreatedAs(old(persistent), name, made, prikeyStored, prikeyDeleted, r, persistent)
    {
      ghost var ks := persistent;
      known, index := true, 0;
      r, m := ChooseIndex();
      at := |flash.log|;
      if r < SUCCESS {
        return;
      }
      var found: byte := r;
      index := found;
      r, known := CreateFound(found, name, made, prikeyStored, prikeyDeleted);
      if flash.CleanSince(|old(flash.log)|) {
        assert flash.CleanSince(at);
        CreatedFound(ks, index, name, made, prikeyStored, prikeyDeleted, r, persistent);
      }
    }

    /** The free-index search of a creation. */
    method ChooseIndex() returns (r: int, ghost m: nat)
      requires Valid()
      modifies flash`log, ram`log
      ensures Valid() && old(flash.log) < flash.log && old(ram.log) <= ram.log && r != 0 && r <= MAX_RECORDS
      ensures m == Known(|flash.log| - |old(flash.log)| - 1) <= |persistent| && (r > 0 ==> r == Chosen(persistent, m))
      ensures flash.CleanSince(|old(flash.log)|) ==>
        m == |persistent| && (r == ERROR_INDEX_EXCEED <==> |persistent| == MAX_RECORDS) && (r < 0 ==> r == ERROR_INDEX_EXCEED)
    {
      r, m := FreeIndex(flash, ram, persistent, onetime);
      assert flash.CleanSince(|old(flash.log)|) ==> flash.log[|old(flash.log)|];
    }

    /** The creation behind a search that has found an index. */
    method CreateFound(index: byte, name: Option<Name>, made: Option<Material>, prikeyStored: bool, prikeyDeleted: bool)
      returns (r: int, known: bool)
      requires Valid() && (made.Some? ==> GoodMaterial(made.value)) && 1 <= index <= MAX_RECORDS
      modifies this`persistent, flash`log, flash.mem
      ensures old(flash.log) <= flash.log && r != 0
      ensures made.None? ==> known && r == ERROR_KEY_CREATE_FAIL && persistent == old(persistent) && flash.log == old(flash.log)
      ensures made.Some? ==> old(flash.log) < flash.log
      ensures made.Some? ==>
        CreateOutcome(old(persistent), index, name, made.value, prikeyStored, prikeyDeleted,
                      flash.log, |old(flash.log)|, r, known, persistent)
      ensures known ==> Valid()
      ensures known && made.Some? && !prikeyStored ==>
        CreateSpared(old(persistent), NewKeypair(index, name, made.value), persistent)
      ensures !known ==> made.Some?
      ensures !known ==>
        CreateBlind(flash.mem[..], old(persistent), NewKeypair(index, name, made.value), prikeyStored,
                    flash.log, |old(flash.log)|)
      ensures flash.CleanSince(|old(flash.log)|) && |old(persistent)| < MAX_RECORDS ==>
        known && FoundAs(old(persistent), index, name, made, prikeyStored, prikeyDeleted, r, persistent)
    {
      if made.None? {
        return ERROR_KEY_CREATE_FAIL, true;
      }
      r, known := CreateChosen(index, name, made.value, prikeyStored, prikeyDeleted);
    }

    /** The creation with the index chosen. */
    method CreateChosen(index: byte, name: Option<Name>, made: Material, prikeyStored: bool, prikeyDeleted: bool)
      returns (r: int, known: bool)
      requires Valid() && GoodMaterial(made) && 1 <= index <= MAX_RECORDS
      modifies this`persistent, flash`log, flash.mem
      ensures old(flash.log) < flash.log && r != 0
      ensures CreateOutcome(old(persistent), index, name, made, prikeyStored, prikeyDeleted,
                            flash.log, |old(flash.log)|, r, known, persistent)
      ensures known ==> Valid() && (!prikeyStored ==> CreateSpared(old(persistent), NewKeypair(index, name, made), persistent))
      ensures !known ==>
        CreateBlind(flash.mem[..], old(persistent), NewKeypair(index, name, made), prikeyStored, flash.log, |old(flash.log)|)
      ensures flash.CleanSince(|old(flash.log)|) && |old(persistent)| < MAX_RECORDS ==>
        known && (r, persistent) == CreatedWith(old(persistent), NewKeypair(index, name, made), prikeyStored, prikeyDeleted)
    {
      ghost var ks, start := persistent, |flash.log|;
      r, known := CreateWithIndex(NewKeypair(index, name, made), prikeyStored, prikeyDeleted);
      if r == SUCCESS {
        r := index;
        CreatedLast(ks, index, name, made, prikeyDeleted, flash.log, start);
      }
    }

    method CreateWithIndex(k: Keypair, prikeyStored: bool, prikeyDeleted: bool) returns (r: int, known: bool)
      requires Valid() && WellFormed(k) && 1 <= k.index <= MAX_RECORDS
      modifies this`persistent, flash`log, flash.mem
      ensures old(flash.log) < flash.log && r <= SUCCESS
      ensures r == SUCCESS <==> prikeyStored && Stored(|old(persistent)|, false, k, flash.log, |old(flash.log)|)
      ensures known && !prikeyStored ==> CreateSpared(old(persistent), k, persistent)
      ensures known <==> CreateKnown(old(persistent), k, prikeyStored, prikeyDeleted, flash.log, |old(flash.log)|)
      ensures persistent == AfterCreate(old(persistent), k, prikeyStored, prikeyDeleted, flash.log, |old(flash.log)|)
      ensures known ==> Valid()
      ensures !known ==> CreateBlind(flash.mem[..], old(persistent), k, prikeyStored, flash.log, |old(flash.log)|)
      ensures flash.CleanSince(|old(flash.log)|) ==> known
      ensures flash.CleanSince(|old(flash.log)|) && |old(persistent)| < MAX_RECORDS ==>
        if !Fits(k) then r == ERROR && persistent == old(persistent)
        else if prikeyStored then r == SUCCESS && persistent == old(persistent) + [k]
        else r == ERROR && persistent == Deleted(old(persistent) + [k], k.index, prikeyDeleted).1
    {
      ghost var ks, start := persistent, |flash.log|;
      r, known := StorePersistent(k);
      if r == SUCCESS && !prikeyStored {
        known := Undo(k, prikeyDeleted, ks, start);
        r := ERROR;
      } else {
        NotUndoing(ks, k, prikeyStored, prikeyDeleted, flash.log, start, flash.mem[..]);
      }
    }

    /** Deletes a keypair just stored. */
    method Undo(k: Keypair, prikeyDeleted: bool, ghost ks: seq<Keypair>, ghost start: nat) returns (known: bool)
      requires Valid() && 1 <= k.index <= MAX_RECORDS && persistent == AfterStore(ks, false, k, flash.log, start)
      requires start < |flash.log| == UndoStart(ks, flash.log, start) && Stored(|ks|, false, k, flash.log, start)
      modifies this`persistent, flash`log, flash.mem
      ensures old(flash.log) <= flash.log && Stored(|ks|, false, k, flash.log, start)
      ensures known <==> CreateKnown(ks, k, false, prikeyDeleted, flash.log, start)
      ensures persistent == AfterCreate(ks, k, false, prikeyDeleted, flash.log, start)
      ensures known ==> Valid() && CreateSpared(ks, k, persistent)
      ensures !known ==> CreateBlind(flash.mem[..], ks, k, false, flash.log, start)
      ensures flash.CleanSince(|old(flash.log)|) ==>
        known && persistent == Deleted(old(persistent), k.index, prikeyDeleted).1
    {
      var r;
      ghost var log := flash.log;
      r, known := DeletePersistent(k.index, prikeyDeleted);
      UndoReached(ks, k, prikeyDeleted, log, flash.log, start, flash.mem[..]);
      StoredStays(|ks|, k, log, flash.log, start);
    }

    method DeleteOnetime() returns (r: int)
      requires Valid()
      modifies this`onetime, ram`log, ram.mem
      ensures Valid() && old(ram.log) < ram.log && r <= SUCCESS
      ensures onetime == if r == SUCCESS then [] else old(onetime)
      ensures r == SUCCESS <==> old(onetime) != [] && !FailedWithin(ram.log, |old(ram.log)|, 2)
      ensures ram.CleanSince(|old(ram.log)|) ==> r == if old(onetime) == [] then ERROR_INEXISTENCE else SUCCESS
    {
      r := Clear(ram, onetime);
      if r == SUCCESS {
        onetime := [];
      }
    }

    /** Appends to the persistent keypairs. */
    method StorePersistent(k: Keypair) returns (r: int, known: bool)
      requires Valid() && WellFormed(k) && 1 <= k.index <= MAX_RECORDS
      modifies this`persistent, flash`log, flash.mem
      ensures old(flash.log) < flash.log && r <= SUCCESS
      ensures r == SUCCESS <==> Stored(|old(persistent)|, false, k, flash.log, |old(flash.log)|)
      ensures r == SUCCESS ==>
        |flash.log| == |old(flash.log)| + StoreOps(Base(|old(persistent)|, false, flash.log, |old(flash.log)|))
      ensures persistent == AfterStore(old(persistent), false, k, flash.log, |old(flash.log)|)
      ensures known <==> StoreKnown(|old(persistent)|, false, k, flash.log, |old(flash.log)|)
      ensures if known then Valid() else LeftBlind(flash.mem[..], old(persistent), k)
      ensures flash.CleanSince(|old(flash.log)|) ==>
        known && r == if |old(persistent)| >= MAX_RECORDS then ERROR_INDEX_EXCEED else if Fits(k) then SUCCESS else ERROR
    {
      var start := |flash.log|;
      r, persistent := StoreData(flash, false, k, persistent);
      known := r == SUCCESS || flash.log[start] || |flash.log| < start + 4;
    }

    /** Deletes a persistent keypair. What is left depends on the outcomes of the operations alone. */
    method DeletePersistent(index: byte, prikeyDeleted: bool) returns (r: int, known: bool)
      requires Valid() && 1 <= index
      modifies this`persistent, flash`log, flash.mem
      ensures old(flash.log) <= flash.log && r <= SUCCESS
      ensures known <==> DeleteKnown(old(persistent), index, prikeyDeleted, flash.log, |old(flash.log)|)
      ensures persistent == Remaining(old(persistent), index, prikeyDeleted, flash.log, |old(flash.log)|)
      ensures if known then Valid() else DeleteBlind(flash.mem[..], old(persistent), index)
      ensures prikeyDeleted ==> known
      ensures r == SUCCESS ==> prikeyDeleted && Position(old(persistent), index) < |old(persistent)|
      ensures r == SUCCESS ==> persistent == Without(old(persistent), Position(old(persistent), index))
      ensures r != SUCCESS && known ==> Spared(old(persistent), index, prikeyDeleted, persistent)
      ensures flash.CleanSince(|old(flash.log)|) ==>
        known && (r, persistent) == Deleted(old(persistent), index, prikeyDeleted)
    {
      var removed;
      known := true;
      if index > MAX_RECORDS {
        return ERROR_INDEX_EXCEED, true;
      }
      ghost var ks, start := persistent, |flash.log|;
      r, removed := RemovePersistent(index);
      if r == SUCCESS && !prikeyDeleted {
        known := Restore(removed, ks, index, start);
        r := ERROR;
      } else {
        NotRestoring(ks, index, prikeyDeleted, flash.log, start);
      }
    }

    /** Stores a removed keypair once more. */
    method Restore(k: Keypair, ghost ks: seq<Keypair>, ghost index: byte, ghost start: nat) returns (known: bool)
      requires Valid() && Fits(k) && 1 <= k.index <= MAX_RECORDS && index <= MAX_RECORDS
      requires Position(ks, index) < |ks| && k == ks[Position(ks, index)] && |ks| <= MAX_RECORDS
      requires persistent == Without(ks, Position(ks, index))
      requires start <= |flash.log| == start + RemovalOps(|ks|, Position(ks, index)) && flash.CleanSince(start)
      modifies this`persistent, flash`log, flash.mem
      ensures old(flash.log) < flash.log
      ensures known <==> DeleteKnown(ks, index, false, flash.log, start)
      ensures persistent == Remaining(ks, index, false, flash.log, start)
      ensures if known then Valid() else DeleteBlind(flash.mem[..], ks, index)
      ensures known ==> Spared(ks, index, false, persistent)
      ensures flash.CleanSince(start) ==> known && persistent == Without(ks, Position(ks, index)) + [k]
    {
      var r;
      ghost var before := |flash.log|;
      r, known := StorePersistent(k);
      RestoreReached(ks, index, flash.log, start, before);
      assert flash.CleanSince(start) ==> flash.CleanSince(before);
    }

    method RemovePersistent(index: byte) returns (r: int, removed: Keypair)
      requires Valid() && 1 <= index <= MAX_RECORDS
      modifies this`persistent, flash`log, flash.mem
      ensures old(flash.log) < flash.log && r <= SUCCESS && Valid()
      ensures persistent == AfterDelete(old(persistent), index, flash.log, |old(flash.log)|)
      ensures var p := Position(old(persistent), index);
        && (r == SUCCESS <==> p < |old(persistent)| && flash.CleanSince(|old(flash.log)|))
        && (r == SUCCESS ==> removed == old(persistent)[p] && persistent == Without(old(persistent), p))
        && (r == SUCCESS ==> Fits(removed) && removed.index == index && |persistent| < MAX_RECORDS)
        && (r == SUCCESS ==> |flash.log| == |old(flash.log)| + RemovalOps(|old(persistent)|, p))
        && (r != SUCCESS ==>
              persistent == old(persistent) ||
              (p < |old(persistent)| && persistent == old(persistent)[..|old(persistent)| - 1]))
        && (r != SUCCESS && p < |old(persistent)| ==>
              FailedWithin(flash.log, |old(flash.log)|, RemovalOps(|old(persistent)|, p)))
      ensures flash.CleanSince(|old(flash.log)|) && r != SUCCESS ==>
        Position(old(persistent), index) == |old(persistent)| && persistent == old(persistent) &&
        r == if persistent == [] then ERROR_INEXISTENCE else ERROR
    {
      ghost var ks := persistent;
      r, removed, persistent := Remove(flash, index, ks);
      ProperAfterDelete(old(flash.mem[..]), ks, index, flash.log, |old(flash.log)|);
    }

    method Get(index: byte) returns (r: int, k: Keypair)
      requires Valid()
      modifies flash`log, ram`log
      ensures Valid() && old(flash.log) <= flash.log && old(ram.log) <= ram.log
      ensures r == SUCCESS ==> var ks := if index == 0 then onetime else persistent;
        Position(ks, index) < |ks| && k == ks[Position(ks, index)]
      ensures r == SUCCESS && index > 0 ==> index as int in MapOf(persistent) && k == MapOf(persistent)[index as int]
      ensures index == 0 && ram.CleanSince(|old(ram.log)|) ==> (r == SUCCESS <==> onetime != [])
      ensures index != 0 && flash.CleanSince(|old(flash.log)|) ==>
        (r == SUCCESS <==> index as int in Indices(persistent))
    {
      if index == 0 {
        r, k := GetByIndex(ram, index, onetime);
      } else {
        r, k := GetByIndex(flash, index, persistent);
        PositionInUse(persistent, index);
      }
    }

    /** What has been created can be read back under the index that was answered: the key that was
        delivered, with the name asked for. */
    method CreateAndGet(name: Option<Name>, made: Option<Material>, prikeyStored: bool, prikeyDeleted: bool)
      returns (r: int, got: int, k: Keypair)
      requires Valid() && Sound(persistent) && (made.Some? ==> GoodMaterial(made.value))
      modifies this`persistent, flash`log, flash.mem, ram`log
      ensures r > 0 && flash.CleanSince(|old(flash.log)|) ==>
        made.Some? && got == SUCCESS && Bears(k, r, name, made.value)
    {
      got, k := ERROR, Keypair(0, [], [], [], []);
      r := CreateBound(name, made, prikeyStored, prikeyDeleted);
      if r > 0 {
        ghost var log0, log1 := old(flash.log), flash.log;
        got, k := Get(r);
        CleanBefore(log0, log1, flash.log);
      }
    }

    method CreateBound(name: Option<Name>, made: Option<Material>, prikeyStored: bool, prikeyDeleted: bool)
      returns (r: int)
      requires Valid() && Sound(persistent) && (made.Some? ==> GoodMaterial(made.value))
      modifies this`persistent, flash`log, flash.mem, ram`log
      ensures old(flash.log) < flash.log && r <= MAX_RECORDS && (r > 0 ==> Valid())
      ensures r > 0 && flash.CleanSince(|old(flash.log)|) ==>
        made.Some? && r in MapOf(persistent) && Bears(MapOf(persistent)[r], r, name, made.value)
    {
      ghost var ks, at, m, index := persistent, 0, 0, 0;
      var known;
      r, known, at, m, index := CreatePersistent(name, made, prikeyStored, prikeyDeleted);
      if r > 0 && flash.CleanSince(|old(flash.log)|) {
        CreatedBears(ks, name, made, prikeyStored, prikeyDeleted, r, persistent);
      }
    }

    /** `known` is false only if a store that could not read the header has failed behind its first
        write: then a record stands where the first one stood, under the old count. */
    method Execute(c: Command) returns (r: int, known: bool)
      requires Valid() && c.Good()
      modifies this`persistent, flash`log, flash.mem, ram`log
      ensures old(flash.log) <= flash.log
      ensures known ==> Valid() && Step(RULES, old(persistent), c, r, persistent)
      ensures !known ==> Stranded(flash.mem[..], old(persistent), c)
      ensures c.Delete? && c.prikeyDeleted ==> known
      ensures flash.CleanSince(|old(flash.log)|) ==> known && persistent == Next(old(persistent), c)
    {
      match c {
        case Create(name, made, stored, deleted) =>
          ghost var at, m, index;
          r, known, at, m, index := CreatePersistent(name, made, stored, deleted);
          if known {
            CreateStep(old(persistent), c, r, known, persistent, at < |flash.log|, index, flash.log, at);
          } else {
            CreateStrands(flash.mem[..], old(persistent), c, index, flash.log, at);
          }
        case Delete(index, deleted) =>
          r, known := DeletePersistent(index, deleted);
      }
    }

    /** Runs commands one after the other, up to the first that leaves the flash file unknown.
        `states` is what the file held before and after each. */
    method Run(cmds: seq<Command>) returns (results: seq<int>, ghost states: seq<seq<Keypair>>)
      requires Valid() && AllGood(RULES, cmds, |cmds|)
      modifies this`persistent, flash`log, flash.mem, ram`log
      ensures old(flash.log) <= flash.log
      ensures |results| <= |cmds| && |states| == |results| + 1 && states[0] == old(persistent)
      ensures Trail(RULES, cmds, results, states, |results|)
      ensures |results| == |cmds| ==> Valid() && persistent == states[|cmds|]
      ensures |results| < |cmds| ==> Stranded(flash.mem[..], states[|results|], cmds[|results|])
      ensures flash.CleanSince(|old(flash.log)|) ==>
        |results| == |cmds| && persistent == Replay(RULES, old(persistent), cmds, |cmds|)
    {
      results, states := [], [persistent];
      while |results| < |cmds|
        invariant Valid() && old(flash.log) <= flash.log
        invariant Progress(RULES, cmds, results, states, old(persistent), persistent, flash.CleanSince(|old(flash.log)|))
      {
        ghost var before, size := persistent, |flash.log|;
        ghost var wasClean := flash.CleanSince(|old(flash.log)|);
        GoodAt(RULES, cmds, |cmds|, |results|);
        var r, known := Execute(cmds[|results|]);
        assert flash.CleanSince(|old(flash.log)|) ==> wasClean && flash.CleanSince(size);
        if !known {
          return;
        }
        Progressed(RULES, cmds, results, states, old(persistent), before, wasClean, r, persistent, flash.CleanSince(|old(flash.log)|));
        results, states := results + [r], states + [persistent];
      }
    }
  }

  // Runs with failures

  /** A command that was answered by r: one that failed changes nothing. */
  function Applied(ks: seq<Keypair>, c: Command, r: int): seq<Keypair> {
    match c
    case Create(name, made, _, _) =>
      if 0 < r <= MAX_RECORDS && c.Good() && made.Some? then ks + [NewKeypair(r, name, made.value)] else ks
    case Delete(index, _) =>
      var p := Position(ks, index);
      if r == SUCCESS && p < |ks| then Without(ks, p) else ks
  }

  /** The ways to lose keypairs. A creation whose store cannot read the header keeps only the new
      one. A deletion that fails behind the lowering of the count, and whose recovery write fails,
      drops the last one. If its private key cannot be deleted, the keypair may be gone, or it may
      be the only one left, depending on how far storing it once more has come. */
  predicate Loss(ks: seq<Keypair>, c: Command, r: int, after: seq<Keypair>) {
    match c
    case Create(name, made, _, _) =>
      0 < r <= MAX_RECORDS && c.Good() && made.Some? && ks != [] && after == [NewKeypair(r, name, made.value)]
    case Delete(index, deleted) =>
      var p := Position(ks, index);
      r != SUCCESS && p < |ks| && after != ks &&
      (after == ks[..|ks| - 1] || (!deleted && (after == Without(ks, p) || after == [ks[p]])))
  }

  /** What is left by a command whose private-key operation does not go through. */
  ghost predicate Unserved(ks: seq<Keypair>, c: Command, after: seq<Keypair>) {
    match c
    case Create(name, made, _, _) =>
      after == ks ||
      (c.Good() && made.Some? &&
       exists i: byte :: 1 <= i <= MAX_RECORDS && CreateSpared(ks, NewKeypair(i, name, made.value), after))
    case Delete(index, deleted) => Spared(ks, index, deleted, after)
  }

  /** What is left when a store that could not read the header has failed behind its first write:
      the store of a creation, or the one of a deletion that stores its keypair once more. */
  ghost predicate Stranded(m: seq<byte>, ks: seq<Keypair>, c: Command) {
    match c
    case Create(name, made, _, _) =>
      c.Good() && made.Some? && exists i: byte :: 1 <= i <= MAX_RECORDS && StrandedBy(m, ks, NewKeypair(i, name, made.value))
    case Delete(index, _) => DeleteBlind(m, ks, index)
  }

  ghost predicate StrandedBy(m: seq<byte>, ks: seq<Keypair>, k: Keypair) {
    LeftBlind(m, ks, k) || DeleteBlind(m, ks + [k], k.index) || DeleteBlind(m, [k], k.index)
  }

  lemma CreateStrands(m: seq<byte>, ks: seq<Keypair>, c: Command, index: nat, log: seq<bool>, at: nat)
    requires c.Create? && c.Good() && c.made.Some? && 1 <= index <= MAX_RECORDS
    requires CreateBlind(m, ks, NewKeypair(index, c.name, c.made.value), c.prikeyStored, log, at)
    ensures Stranded(m, ks, c)
  {
    var i: byte := index;
    assert StrandedBy(m, ks, NewKeypair(i, c.name, c.made.value));
  }

  const RULES: Rules<seq<Keypair>, Command> :=
    Rules((c: Command) => c.Good(), (c: Command) => c.KeysServed(), Next, Applied, Loss, Unserved)

  lemma CreateStep(ks: seq<Keypair>, c: Command, r: int, known: bool, after: seq<Keypair>,
                   reached: bool, index: nat, log: seq<bool>, at: nat)
    requires c.Create? && c.Good() && r <= MAX_RECORDS && known
    requires !reached ==> r < 0 && after == ks
    requires reached ==> c.made.Some? && 1 <= index <= MAX_RECORDS
    requires reached ==> CreateOutcome(ks, index, c.name, c.made.value, c.prikeyStored, c.prikeyDeleted,
                                       log, at, r, known, after)
    requires reached && !c.prikeyStored ==> CreateSpared(ks, NewKeypair(index, c.name, c.made.value), after)
    ensures Step(RULES, ks, c, r, after)
  {
    if reached {
      var i: byte := index;
      var k := NewKeypair(i, c.name, c.made.value);
      if c.prikeyStored {
        assert Undoing(ks, k, true, log, at) == false;
        assert after == AfterStore(ks, false, k, log, at);
        assert ks == [] ==> ks + [k] == [k];
      } else {
        assert 1 <= i <= MAX_RECORDS && CreateSpared(ks, NewKeypair(i, c.name, c.made.value), after);
        assert Unserved(ks, c, after);
      }
    }
  }

  lemma {:induction false} PositionAppended(ks: seq<Keypair>, k: Keypair)
    ensures Position(ks + [k], k.index) <= |ks|
    ensures k.index as int !in Indices(ks) ==>
      Position(ks + [k], k.index) == |ks| && Without(ks + [k], |ks|) == ks
  {
    var p := Position(ks + [k], k.index);
    assert (ks + [k])[|ks|] == k;
    if p < |ks| {
      assert ks[p] in ks;
    }
  }

  lemma PositionInUse(ks: seq<Keypair>, index: byte)
    ensures Position(ks, index) < |ks| <==> index as int in Indices(ks)
  {
    if Position(ks, index) < |ks| {
      assert ks[Position(ks, index)] in ks;
    }
  }

  /** Result and keypairs after an undisturbed creation. */
  function Created(ks: seq<Keypair>, name: Option<Name>, made: Option<Material>, prikeyStored: bool, prikeyDeleted: bool)
    : (int, seq<Keypair>)
    requires made.Some? ==> GoodMaterial(made.value)
  {
    var index := LeastFree(Indices(ks), 1);
    if |ks| == MAX_RECORDS || index > MAX_RECORDS then (ERROR_INDEX_EXCEED, ks)
    else if made.None? then (ERROR_KEY_CREATE_FAIL, ks)
    else CreatedWith(ks, NewKeypair(index, name, made.value), prikeyStored, prikeyDeleted)
  }

  /** An undisturbed creation behind its search. */
  predicate FoundAs(ks: seq<Keypair>, index: byte, name: Option<Name>, made: Option<Material>,
                    prikeyStored: bool, prikeyDeleted: bool, r: int, after: seq<Keypair>)
    requires (made.Some? ==> GoodMaterial(made.value)) && index <= MAX_RECORDS
  {
    (r, after) == if made.None? then (ERROR_KEY_CREATE_FAIL, ks)
                  else CreatedWith(ks, NewKeypair(index, name, made.value), prikeyStored, prikeyDeleted)
  }

  /** Whether this is what an undisturbed creation answers and leaves. */
  predicate CreatedAs(ks: seq<Keypair>, name: Option<Name>, made: Option<Material>,
                      prikeyStored: bool, prikeyDeleted: bool, r: int, after: seq<Keypair>)
    requires made.Some? ==> GoodMaterial(made.value)
  {
    (r, after) == Created(ks, name, made, prikeyStored, prikeyDeleted)
  }

  lemma CreatedFound(ks: seq<Keypair>, index: byte, name: Option<Name>, made: Option<Material>,
                     prikeyStored: bool, prikeyDeleted: bool, r: int, after: seq<Keypair>)
    requires |ks| < MAX_RECORDS && (made.Some? ==> GoodMaterial(made.value))
    requires 1 <= index <= MAX_RECORDS && index as int == Chosen(ks, |ks|)
    requires FoundAs(ks, index, name, made, prikeyStored, prikeyDeleted, r, after)
    ensures CreatedAs(ks, name, made, prikeyStored, prikeyDeleted, r, after)
  {
    assert ks[..|ks|] == ks;
  }

  function CreatedWith(ks: seq<Keypair>, k: Keypair, prikeyStored: bool, prikeyDeleted: bool): (int, seq<Keypair>) {
    if !Fits(k) then (ERROR, ks)
    else if prikeyStored then (k.index as int, ks + [k])
    else (ERROR, Deleted(ks + [k], k.index, prikeyDeleted).1)
  }

  /** Result and remaining keypairs of an undisturbed deletion. */
  function Deleted(ks: seq<Keypair>, index: byte, prikeyDeleted: bool): (int, seq<Keypair>) {
    var p := Position(ks, index);
    if index > MAX_RECORDS then (ERROR_INDEX_EXCEED, ks)
    else if p == |ks| then (if ks == [] then ERROR_INEXISTENCE else ERROR, ks)
    else if prikeyDeleted then (SUCCESS, Without(ks, p))
    else (ERROR, Without(ks, p) + [ks[p]])
  }

  /** A request, with what the environment answers to the private-key operations behind it. */
  datatype Command =
    | Create(name: Option<Name>, made: Option<Material>, prikeyStored: bool, prikeyDeleted: bool)
    | Delete(index: byte, prikeyDeleted: bool)
  {
    predicate Good() {
      match this
      case Create(_, made, _, _) => made.Some? ==> GoodMaterial(made.value)
      case Delete(index, _) => index >= 1
    }

    /** The private-key operations behind the request go through. */
    predicate KeysServed() {
      match this
      case Create(_, made, stored, _) => made.Some? ==> stored
      case Delete(_, deleted) => deleted
    }
  }

  function Next(ks: seq<Keypair>, c: Command): seq<Keypair> {
    match c
    case Create(name, made, stored, deleted) => if c.Good() then Created(ks, name, made, stored, deleted).1 else ks
    case Delete(index, deleted) => Deleted(ks, index, deleted).1
  }

  /** The abstract value: which keypair each index stands for. */
  function MapOf(ks: seq<Keypair>): (m: map<int, Keypair>)
    ensures m.Keys == Indices(ks)
  {
    map i | i in Indices(ks) :: Lookup(ks, i)
  }

  function Lookup(ks: seq<Keypair>, i: int): (k: Keypair)
    requires i in Indices(ks)
    ensures k in ks && k.index as int == i
  {
    PositionInUse(ks, i);
    ks[Position(ks, i)]
  }

  /** Among distinct indices, every keypair is found under its own. */
  lemma Found(ks: seq<Keypair>, k: Keypair)
    requires Distinct(ks) && k in ks
    ensures k.index as int in Indices(ks) && Lookup(ks, k.index) == k
  {
    PositionInUse(ks, k.index);
    var j :| 0 <= j < |ks| && ks[j] == k;
    var p := Position(ks, k.index);
    assert ks[p].index == ks[j].index;
  }

  /** A map from exactly the indices in use to keypairs of the list is the list's map. */
  lemma MapUnique(ks: seq<Keypair>, m: map<int, Keypair>)
    requires Distinct(ks) && m.Keys == Indices(ks)
    requires forall i :: i in m ==> m[i] in ks && m[i].index as int == i
    ensures m == MapOf(ks)
  {
    forall i | i in m ensures m[i] == MapOf(ks)[i] {
      Found(ks, m[i]);
    }
  }

  /** Lists of distinct keypairs with the same members stand for the same map. */
  lemma SameMembers(ks: seq<Keypair>, ls: seq<Keypair>)
    requires Distinct(ks) && Distinct(ls)
    requires forall k :: k in ks <==> k in ls
    ensures MapOf(ks) == MapOf(ls)
  {
    MapUnique(ls, MapOf(ks));
  }

  predicate Sound(ks: seq<Keypair>) {
    Proper(ks) && Distinct(ks)
  }

  /** Whether an undisturbed creation leaves the new keypair in the file. It does so without
      reporting success if its private key can neither be stored nor be deleted. */
  predicate Adds(n: nat, name: Option<Name>, made: Option<Material>, stored: bool, deleted: bool) {
    n < MAX_RECORDS && made.Some? && (stored || !deleted) && (name.Some? ==> |name.value| <= 65455)
  }

  /** A creation binds the least index that was not in use to the new keypair, or changes nothing.
      It reports that index exactly if the keypair is left there and its private key is stored. */
  lemma CreateMeaning(ks: seq<Keypair>, name: Option<Name>, made: Option<Material>, stored: bool, deleted: bool)
    requires Sound(ks) && (made.Some? ==> GoodMaterial(made.value))
    ensures var (r, ks') := Created(ks, name, made, stored, deleted); var i := LeastFree(MapOf(ks).Keys, 1);
      && Sound(ks')
      && (r > 0 <==> Adds(|ks|, name, made, stored, deleted) && stored)
      && (r > 0 ==> r == i && r in MapOf(ks') && Bears(MapOf(ks')[r], r, name, made.value))
      && if Adds(|ks|, name, made, stored, deleted) then
           i <= MAX_RECORDS && i !in MapOf(ks) && ks' == ks + [NewKeypair(i, name, made.value)] &&
           MapOf(ks') == MapOf(ks)[i := NewKeypair(i, name, made.value)]
         else ks' == ks
  {
    if |ks| < MAX_RECORDS {
      var index := NewIndex(ks);
      if made.Some? {
        NewBears(index, name, made.value);
        AppendMeaning(ks, NewKeypair(index, name, made.value));
        WithMeaning(ks, NewKeypair(index, name, made.value), stored, deleted);
      }
    }
  }

  lemma NewIndex(ks: seq<Keypair>) returns (index: byte)
    requires Sound(ks) && |ks| < MAX_RECORDS
    ensures index as int == LeastFree(Indices(ks), 1) <= MAX_RECORDS && index as int !in Indices(ks)
  {
    var free := Pigeonhole(ks);
    index := LeastFree(Indices(ks), 1);
  }

  lemma WithMeaning(ks: seq<Keypair>, k: Keypair, stored: bool, deleted: bool)
    requires k.index <= MAX_RECORDS && k.index as int !in Indices(ks)
    ensures var (r, ks') := CreatedWith(ks, k, stored, deleted);
      && (if Fits(k) && stored then r == k.index as int else r == ERROR)
      && ks' == if Fits(k) && (stored || !deleted) then ks + [k] else ks
  {
    AppendedThenDeleted(ks, k, deleted);
  }

  lemma CreatedBears(ks: seq<Keypair>, name: Option<Name>, made: Option<Material>, stored: bool, deleted: bool,
                     r: int, after: seq<Keypair>)
    requires Sound(ks) && (made.Some? ==> GoodMaterial(made.value)) && r > 0
    requires CreatedAs(ks, name, made, stored, deleted, r, after)
    ensures made.Some? && r in MapOf(after) && Bears(MapOf(after)[r], r, name, made.value)
  {
    CreateMeaning(ks, name, made, stored, deleted);
  }

  /** A keypair that has just been appended and is deleted again, or, with its private key still
      there, stored once more. */
  lemma AppendedThenDeleted(ks: seq<Keypair>, k: Keypair, deleted: bool)
    requires k.index <= MAX_RECORDS && k.index as int !in Indices(ks)
    ensures Deleted(ks + [k], k.index, deleted).1 == if deleted then ks else ks + [k]
  {
    PositionAppended(ks, k);
    assert Without(ks + [k], |ks|) == ks;
  }

  lemma AppendIndices(ks: seq<Keypair>, k: Keypair)
    ensures Indices(ks + [k]) == Indices(ks) + {k.index as int}
  {
    var ls := ks + [k];
    assert forall x :: x in ls <==> x in ks || x == k;
  }

  lemma AppendSound(ks: seq<Keypair>, k: Keypair)
    requires Sound(ks) && |ks| < MAX_RECORDS && 1 <= k.index <= MAX_RECORDS && k.index as int !in Indices(ks)
    ensures Sound(ks + [k])
  {
    forall i | 0 <= i < |ks| ensures ks[i].index != k.index {
      assert ks[i] in ks;
    }
  }

  lemma AppendMeaning(ks: seq<Keypair>, k: Keypair)
    requires Sound(ks) && |ks| < MAX_RECORDS && 1 <= k.index <= MAX_RECORDS && k.index as int !in Indices(ks)
    ensures Sound(ks + [k]) && MapOf(ks + [k]) == MapOf(ks)[k.index as int := k]
  {
    AppendIndices(ks, k);
    AppendSound(ks, k);
    MapUnique(ks + [k], MapOf(ks)[k.index as int := k]);
  }

  /** A deletion removes exactly the binding of its index. If only the deletion of the private
      key fails, the keypair is restored: the map is what it was, only the order differs. */
  lemma DeleteMeaning(ks: seq<Keypair>, index: byte, prikeyDeleted: bool)
    requires Sound(ks) && index >= 1
    ensures var (r, ks') := Deleted(ks, index, prikeyDeleted);
      && Sound(ks')
      && (r == SUCCESS <==> index as int in MapOf(ks) && prikeyDeleted)
      && MapOf(ks') == if r == SUCCESS then MapOf(ks) - {index as int} else MapOf(ks)
  {
    PositionInUse(ks, index);
    var p := Position(ks, index);
    if p < |ks| {
      assert ks[p].index == index <= MAX_RECORDS;
      if prikeyDeleted {
        WithoutMeaning(ks, p);
        assert Deleted(ks, index, true) == (SUCCESS, Without(ks, p));
      } else {
        RestoredMeaning(ks, p);
        assert Deleted(ks, index, false) == (ERROR, Without(ks, p) + [ks[p]]);
      }
    } else {
      assert Deleted(ks, index, prikeyDeleted).1 == ks;
    }
  }

  /** Exactly when a deletion of a keypair other than the last loses another one: the last keypair
      stays unless the count was lowered and the last operation, the recovery, failed; the one to
      be deleted stays unless everything went through. */
  lemma LossExactly(ks: seq<Keypair>, i: nat, ops: seq<bool>)
    requires Distinct(ks) && i < |ks| - 1
    ensures var after := AfterRemoval(ks, i, ops);
      && (ks[|ks| - 1] in after <==> ops == [] || !ops[0] || ops[|ops| - 1])
      && (ks[i] in after <==> ops == [] || !AllDone(ops))
  {
    var last := |ks| - 1;
    AllDoneIff(ops);
    Lasting(ks, i);
    assert ks[i] in ks && ks[last] in ks;
  }

  lemma Lasting(ks: seq<Keypair>, i: nat)
    requires Distinct(ks) && i < |ks| - 1
    ensures ks[i] !in Without(ks, i) && ks[|ks| - 1] in Without(ks, i)
    ensures ks[i] in ks[..|ks| - 1] && ks[|ks| - 1] !in ks[..|ks| - 1]
  {
    var last := |ks| - 1;
    WithoutMembers(ks, i);
    assert ks[last] in ks;
    assert ks[..last][i] == ks[i];
    forall j | 0 <= j < last ensures ks[..last][j] != ks[last] {
      assert ks[..last][j] == ks[j];
    }
  }

  lemma RestoredMeaning(ks: seq<Keypair>, p: nat)
    requires Sound(ks) && p < |ks|
    ensures Sound(Without(ks, p) + [ks[p]]) && MapOf(Without(ks, p) + [ks[p]]) == MapOf(ks)
  {
    var rest := Without(ks, p);
    WithoutMeaning(ks, p);
    assert ks[p] in ks;
    AppendMeaning(rest, ks[p]);
    SameMembers(ks, rest + [ks[p]]);
  }

  lemma WithoutMeaning(ks: seq<Keypair>, p: nat)
    requires Sound(ks) && p < |ks|
    ensures Sound(Without(ks, p)) && ks[p].index as int !in Indices(Without(ks, p))
    ensures MapOf(Without(ks, p)) == MapOf(ks) - {ks[p].index as int}
    ensures forall k :: k in ks <==> k in Without(ks, p) + [ks[p]]
  {
    WithoutMembers(ks, p);
    WithoutIndices(ks, p);
    MapUnique(Without(ks, p), MapOf(ks) - {ks[p].index as int});
  }

  lemma WithoutIndices(ks: seq<Keypair>, p: nat)
    requires Distinct(ks) && p < |ks|
    ensures Indices(Without(ks, p)) == Indices(ks) - {ks[p].index as int}
  {
    var rest := Without(ks, p);
    WithoutMembers(ks, p);
    assert forall k :: k in rest ==> k in ks && k.index != ks[p].index;
    forall i | i in Indices(ks) && i != ks[p].index as int ensures i in Indices(rest) {
      var k := Lookup(ks, i);
      assert k in rest;
    }
  }

  lemma WithoutMembers(ks: seq<Keypair>, p: nat)
    requires Distinct(ks) && p < |ks|
    ensures forall k :: k in Without(ks, p) <==> k in ks && k.index != ks[p].index
    ensures forall k :: k in ks <==> k in Without(ks, p) + [ks[p]]
    ensures Distinct(Without(ks, p))
  {
    var rest := Without(ks, p);
    forall k | k in rest ensures k in ks && k.index != ks[p].index {
      var j :| 0 <= j < |rest| && rest[j] == k;
      WithoutPlace(ks, p, j);
    }
    forall k | k in ks && k.index != ks[p].index ensures k in rest {
      var j :| 0 <= j < |ks| && ks[j] == k;
      WithoutPlace(ks, p, j);
    }
    forall k | k in ks ensures k in rest + [ks[p]] {
      Found(ks, k);
      Found(ks, ks[p]);
    }
    WithoutDistinct(ks, p);
  }

  lemma WithoutDistinct(ks: seq<Keypair>, p: nat)
    requires Distinct(ks) && p < |ks|
    ensures Distinct(Without(ks, p))
  {
    forall i, j | 0 <= i < j < |Without(ks, p)| ensures Without(ks, p)[i].index != Without(ks, p)[j].index {
      WithoutPlace(ks, p, i);
      WithoutPlace(ks, p, j);
    }
  }

  /** Over every undisturbed run from a sound file: at most MAX_RECORDS keypairs, indices in
      range and pairwise distinct. */
  lemma {:induction false} RunSound(ks: seq<Keypair>, cmds: seq<Command>, n: nat)
    requires n <= |cmds| && Sound(ks) && AllGood(RULES, cmds, n)
    ensures Sound(Replay(RULES, ks, cmds, n))
    ensures |Replay(RULES, ks, cmds, n)| <= 5
  {
    if n > 0 {
      RunSound(ks, cmds, n - 1);
      var before := Replay(RULES, ks, cmds, n - 1);
      match cmds[n - 1] {
        case Create(name, made, stored, deleted) =>
          CreateMeaning(before, name, made, stored, deleted);
        case Delete(index, deleted) =>
          DeleteMeaning(before, index, deleted);
      }
    }
  }

  // Runs on the abstract value

  /** An undisturbed command on the map of keypairs. */
  function Bound(m: map<int, Keypair>, c: Command): map<int, Keypair> {
    match c
    case Create(name, made, stored, deleted) =>
      var i := LeastFree(m.Keys, 1);
      if c.Good() && i <= MAX_RECORDS && Adds(|m|, name, made, stored, deleted)
      then m[i := NewKeypair(i, name, made.value)] else m
    case Delete(index, deleted) => if deleted then m - {index as int} else m
  }

  function BoundAll(m: map<int, Keypair>, cmds: seq<Command>, n: nat): map<int, Keypair>
    requires n <= |cmds|
  {
    if n == 0 then m else Bound(BoundAll(m, cmds, n - 1), cmds[n - 1])
  }

  lemma {:induction false} IndexCount(ks: seq<Keypair>)
    requires Distinct(ks)
    ensures |Indices(ks)| == |ks|
  {
    if ks == [] {
      assert Indices(ks) == {};
    } else {
      var front, last := ks[..|ks| - 1], ks[|ks| - 1];
      IndexCount(front);
      LastIndex(front, last, ks);
    }
  }

  lemma LastIndex(front: seq<Keypair>, last: Keypair, ks: seq<Keypair>)
    requires ks == front + [last] && Distinct(ks)
    ensures Distinct(front) && |Indices(ks)| == |Indices(front)| + 1
  {
    AppendIndices(front, last);
    forall i | 0 <= i < |front| ensures front[i].index != last.index {
      assert ks[i] == front[i] && ks[|front|] == last;
    }
    forall i, j | 0 <= i < j < |front| ensures front[i].index != front[j].index {
      assert ks[i] == front[i] && ks[j] == front[j];
    }
  }

  /** A file with distinct indices holds one record for each binding of its map. */
  lemma MapSize(ks: seq<Keypair>)
    requires Distinct(ks)
    ensures |MapOf(ks)| == |ks|
  {
    IndexCount(ks);
    assert |MapOf(ks)| == |MapOf(ks).Keys|;
  }

  /** Over every undisturbed run the file stands for the map that the commands give. */
  lemma {:induction false} RunMeaning(ks: seq<Keypair>, cmds: seq<Command>, n: nat)
    requires n <= |cmds| && Sound(ks) && AllGood(RULES, cmds, n)
    ensures MapOf(Replay(RULES, ks, cmds, n)) == BoundAll(MapOf(ks), cmds, n)
  {
    if n > 0 {
      var before := Replay(RULES, ks, cmds, n - 1);
      RunSound(ks, cmds, n - 1);
      RunMeaning(ks, cmds, n - 1);
      NextMeaning(before, cmds[n - 1]);
      assert Replay(RULES, ks, cmds, n) == Next(before, cmds[n - 1]);
    }
  }

  lemma NextMeaning(ks: seq<Keypair>, c: Command)
    requires Sound(ks) && c.Good()
    ensures MapOf(Next(ks, c)) == Bound(MapOf(ks), c)
  {
    if c.Create? {
      MapSize(ks);
      CreateMeaning(ks, c.name, c.made, c.prikeyStored, c.prikeyDeleted);
    } else {
      DeleteMeaning(ks, c.index, c.prikeyDeleted);
      assert c.index as int !in MapOf(ks) ==> MapOf(ks) - {c.index as int} == MapOf(ks);
    }
  }
}
