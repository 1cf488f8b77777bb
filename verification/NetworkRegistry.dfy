/** The network file over whole runs of creations and deletions by the three protocols. */
module NetworkRegistry {
  import opened Bytes
  import opened Nvram
  import opened RecordChain
  import opened NetworkRecord
  import opened NetworkStore
  import opened NetworkDelete
  import opened Runs

  datatype Command =
    | Create(p: Protocol, chainId: seq<byte>, eip155: byte, url: seq<byte>)
    | Delete(p: Protocol, index: byte)
  {
    predicate Good() {
      match this
      case Create(p, chainId, eip155, url) => WellFormed(Network(p, 0, chainId, eip155, url))
      case Delete(_, index) => index >= 1
    }
  }

  /** At most MAX_RECORDS networks, indices in range and distinct over all protocols. */
  predicate Sound(ns: seq<Network>) {
    |ns| <= MAX_RECORDS && Distinct(ns) && forall i :: 0 <= i < |ns| ==> 1 <= ns[i].index <= MAX_RECORDS
  }

  function Made(c: Command, index: byte): Network
    requires c.Create?
  {
    Network(c.p, index, c.chainId, c.eip155, c.url)
  }

  /** A command that was answered by r: one that failed changes nothing. */
  function Applied(ns: seq<Network>, c: Command, r: int): seq<Network> {
    match c
    case Create(_, _, _, _) => if 0 < r <= MAX_RECORDS then ns + [Made(c, r)] else ns
    case Delete(p, index) =>
      var i := Position(ns, p, index);
      if r == SUCCESS && i < |ns| then Without(ns, i) else ns
  }

  /** The answer to an undisturbed command. */
  function Answer(ns: seq<Network>, c: Command): int {
    match c
    case Create(_, _, _, _) =>
      var r := LeastFree(Indices(ns), 1);
      if |ns| >= MAX_RECORDS || r > MAX_RECORDS then ERROR_INDEX_EXCEED else r
    case Delete(p, index) =>
      if index > MAX_RECORDS then ERROR_INDEX_EXCEED
      else if Position(ns, p, index) == |ns| then ERROR_INEXISTENCE
      else SUCCESS
  }

  function Next(ns: seq<Network>, c: Command): seq<Network> {
    Applied(ns, c, Answer(ns, c))
  }

  // Runs with failures

  /** The ways to lose networks: a deletion that fails behind the lowering of the count drops the
      last one; a creation whose store cannot read the header keeps only the new one, or, failing
      behind its first write, hands the first one over to its own protocol. */
  predicate Loss(ns: seq<Network>, c: Command, r: int, after: seq<Network>) {
    match c
    case Create(p, _, _, _) =>
      ns != [] && if 0 < r <= MAX_RECORDS then after == [Made(c, r)] else after == Relabelled(ns, p) != ns
    case Delete(p, index) => r != SUCCESS && Position(ns, p, index) < |ns| && after == ns[..|ns| - 1]
  }

  const RULES: Rules<seq<Network>, Command> :=
    Rules((c: Command) => c.Good(), (c: Command) => true, Next, Applied, Loss, (ns, c, after) => true)

  /** What a creation leaves whose store was blind or not and had so many operations. Behind the
      first write of a blind store that fails, the first network has another protocol; behind the
      second one, the file may not hold a list of networks any more. */
  function AfterCreate(ns: seq<Network>, c: Command, r: int, blind: bool, ops: int): seq<Network>
    requires c.Create? && r <= MAX_RECORDS
  {
    if r > 0 then (if blind then [] else ns) + [Made(c, r)]
    else if blind && ns != [] && ops == 4 then Relabelled(ns, c.p)
    else ns
  }

  predicate CreateKnown(r: int, blind: bool, ops: int) {
    r > 0 || !blind || ops <= 4
  }

  /** What a creation does to the list. */
  lemma CreateStep(ns: seq<Network>, c: Command, r: int, blind: bool, ops: int)
    requires c.Create? && r <= MAX_RECORDS
    ensures Step(RULES, ns, c, r, AfterCreate(ns, c, r, blind, ops))
    ensures Loss(ns, c, r, AfterCreate(ns, c, r, blind, ops)) ==> blind
    ensures !blind ==> AfterCreate(ns, c, r, blind, ops) == Applied(ns, c, r)
  {
  }

  lemma CleanStep(ns: seq<Network>, c: Command, r: int, ops: int)
    requires c.Create? && |ns| <= MAX_RECORDS && r <= MAX_RECORDS
    requires if |ns| == MAX_RECORDS then r == ERROR_INDEX_EXCEED else r == LeastFree(Indices(ns), 1)
    ensures r == Answer(ns, c) && AfterCreate(ns, c, r, false, ops) == Next(ns, c)
  {
  }

  lemma KnownHolds(m: seq<byte>, ns: seq<Network>, c: Command, n: Network, r: int, ops: nat)
    requires c.Create? && n.protocol == c.p && r <= 0 && ops <= 4 && LeftBlind(m, ns, n, ops) && |ns| <= MAX_RECORDS
    ensures HoldsNetworks(m, AfterCreate(ns, c, r, true, ops)) && |AfterCreate(ns, c, r, true, ops)| <= MAX_RECORDS
  {
    LeftBlindMeaning(m, ns, n, ops);
    assert ops < 4 ==> Written(n, ops) == [];
  }

  /** What is left when the store of a creation could not read the header and has failed behind
      its second write. */
  ghost predicate Stranded(m: seq<byte>, ns: seq<Network>, c: Command) {
    c.Create? && exists i: byte, ops: nat :: i >= 1 && ops >= 5 && LeftBlind(m, ns, Made(c, i), ops)
  }

  lemma StrandedAt(m: seq<byte>, ns: seq<Network>, c: Command, i: byte, ops: nat)
    requires c.Create? && i >= 1 && ops >= 5 && LeftBlind(m, ns, Made(c, i), ops)
    ensures Stranded(m, ns, c)
  {
  }

  class Registry {
    const flash: Device
    ghost var networks: seq<Network>

    ghost predicate Valid()
      reads this, flash.mem
    {
      HoldsNetworks(flash.mem[..], networks) && |networks| <= MAX_RECORDS
    }

    /** A file without a valid header. */
    constructor (flash: Device)
      requires Blank(flash.mem[..])
      ensures Valid() && this.flash == flash && networks == []
    {
      this.flash := flash;
      networks := [];
    }

    /** `known` is false only for a creation that fails, behind its second write, in a store that
        could not read the header. */
    method CreateNetwork(c: Command) returns (r: int, known: bool)
      requires Valid() && c.Create? && c.Good()
      modifies this`networks, flash`log, flash.mem
      ensures old(flash.log) < flash.log && r <= MAX_RECORDS
      ensures var blind := StoreBlind(|old(networks)|, flash.log, |old(flash.log)|);
        var ops := |flash.log| - StoreStart(|old(networks)|, flash.log, |old(flash.log)|);
        && (known <==> CreateKnown(r, blind, ops))
        && networks == AfterCreate(old(networks), c, r, blind, ops)
        && (!known ==>
              LeftBlind(flash.mem[..], old(networks), Made(c, Chosen(old(networks), flash.log[|old(flash.log)|])), ops))
      ensures known ==> Valid() && Step(RULES, old(networks), c, r, networks)
      ensures Loss(old(networks), c, r, networks) ==> StoreBlind(|old(networks)|, flash.log, |old(flash.log)|)
      ensures flash.CleanSince(|old(flash.log)|) ==>
        known && r == Answer(old(networks), c) && networks == Next(old(networks), c)
    {
      ghost var ns := networks;
      var blind, at;
      r, blind, at := NetworkStore.Create(flash, c.p, c.chainId, c.eip155, c.url, ns);
      known := r > 0 || !blind || |flash.log| <= at + 4;
      ghost var ops := |flash.log| - StoreStart(|ns|, flash.log, |old(flash.log)|);
      networks := AfterCreate(ns, c, r, blind, ops);
      CreateStep(ns, c, r, blind, ops);
      if flash.CleanSince(|old(flash.log)|) {
        CleanStep(ns, c, r, ops);
      }
      if r < 0 && blind && known {
        KnownHolds(flash.mem[..], ns, c, Made(c, Chosen(ns, flash.log[|old(flash.log)|])), r, ops);
      }
    }

    method DeleteNetwork(c: Command) returns (r: int)
      requires Valid() && c.Delete? && c.Good()
      modifies this`networks, flash`log, flash.mem
      ensures old(flash.log) <= flash.log && Valid()
      ensures networks == AfterDelete(old(networks), c.p, c.index, flash.log, |old(flash.log)|)
      ensures Step(RULES, old(networks), c, r, networks)
      ensures flash.CleanSince(|old(flash.log)|) ==> r == Answer(old(networks), c) && networks == Next(old(networks), c)
    {
      ghost var ns := networks;
      r, networks := NetworkDelete.DeletePersistent(flash, c.p, c.index, ns);
      var i := Position(ns, c.p, c.index);
      if c.index <= MAX_RECORDS && i < |ns| {
        ErasureOutcome(ns, i, OpsFrom(flash.log, |old(flash.log)| + ErasureReads(i)));
      }
    }

    method Execute(c: Command) returns (r: int, known: bool)
      requires Valid() && c.Good()
      modifies this`networks, flash`log, flash.mem
      ensures old(flash.log) <= flash.log
      ensures known ==> Valid() && Step(RULES, old(networks), c, r, networks)
      ensures !known ==> Stranded(flash.mem[..], old(networks), c)
      ensures flash.CleanSince(|old(flash.log)|) ==> known && networks == Next(old(networks), c)
    {
      if c.Create? {
        r, known := CreateNetwork(c);
        if !known {
          StrandedAt(flash.mem[..], old(networks), c, Chosen(old(networks), flash.log[|old(flash.log)|]),
                     |flash.log| - StoreStart(|old(networks)|, flash.log, |old(flash.log)|));
        }
      } else {
        known := true;
        r := DeleteNetwork(c);
      }
    }

    /** Runs the commands of all protocols in the order in which they come, up to the first that
        leaves the file unknown. `states` is what the file held before and after each. */
    method Run(cmds: seq<Command>) returns (results: seq<int>, ghost states: seq<seq<Network>>)
      requires Valid() && AllGood(RULES, cmds, |cmds|)
      modifies this`networks, flash`log, flash.mem
      ensures old(flash.log) <= flash.log
      ensures |results| <= |cmds| && |states| == |results| + 1 && states[0] == old(networks)
      ensures Trail(RULES, cmds, results, states, |results|)
      ensures |results| == |cmds| ==> Valid() && networks == states[|cmds|]
      ensures |results| < |cmds| ==> Stranded(flash.mem[..], states[|results|], cmds[|results|])
      ensures flash.CleanSince(|old(flash.log)|) ==>
        |results| == |cmds| && networks == Replay(RULES, old(networks), cmds, |cmds|)
    {
      results, states := [], [networks];
      while |results| < |cmds|
        invariant Valid() && old(flash.log) <= flash.log
        invariant Progress(RULES, cmds, results, states, old(networks), networks, flash.CleanSince(|old(flash.log)|))
      {
        ghost var before, size := networks, |flash.log|;
        ghost var wasClean := flash.CleanSince(|old(flash.log)|);
        GoodAt(RULES, cmds, |cmds|, |results|);
        var r, known := Execute(cmds[|results|]);
        assert flash.CleanSince(|old(flash.log)|) ==> wasClean && flash.CleanSince(size);
        if !known {
          return;
        }
        Progressed(RULES, cmds, results, states, old(networks), before, wasClean, r, networks, flash.CleanSince(|old(flash.log)|));
        results, states := results + [r], states + [networks];
      }
    }
  }

  lemma AddedSound(ns: seq<Network>, c: Command)
    requires Sound(ns) && c.Create?
    ensures Sound(Next(ns, c)) && (|ns| < MAX_RECORDS ==> |Next(ns, c)| == |ns| + 1)
  {
    if |ns| < MAX_RECORDS {
      var s := seq(|ns|, i requires 0 <= i < |ns| => ns[i].index as int);
      forall x | x in Indices(ns) ensures x in s {
        var i :| 0 <= i < |ns| && ns[i].index as int == x;
        assert s[i] == x;
      }
      SetBound(Indices(ns), s);
      var free := SomeFree(Indices(ns));
      var r := LeastFree(Indices(ns), 1);
      assert free !in Indices(ns);
      assert r <= free;
      DistinctAfterCreate(ns, Made(c, r));
    }
  }

  /** Over every undisturbed run of the three protocols together: the free-index search always
      finds an index while there is room, and indices stay distinct and in range. */
  lemma {:induction false} RunSound(ns: seq<Network>, cmds: seq<Command>, n: nat)
    requires n <= |cmds| && Sound(ns)
    ensures Sound(Replay(RULES, ns, cmds, n))
    ensures |Replay(RULES, ns, cmds, n)| <= 5
  {
    if n > 0 {
      RunSound(ns, cmds, n - 1);
      var before := Replay(RULES, ns, cmds, n - 1);
      match cmds[n - 1] {
        case Create(_, _, _, _) =>
          AddedSound(before, cmds[n - 1]);
        case Delete(p, index) =>
          if index <= MAX_RECORDS && Position(before, p, index) < |before| {
            RemovedSound(before, Position(before, p, index));
          }
      }
    }
  }

  lemma RemovedSound(ns: seq<Network>, i: nat)
    requires Sound(ns) && i < |ns|
    ensures Sound(Without(ns, i))
  {
    GoneAfterRemoval(ns, i);
  }

  /** A command of one protocol, whatever its answer, does not change what another protocol lists. */
  lemma OtherProtocolsUnmoved(ns: seq<Network>, c: Command, r: int, q: Protocol)
    requires c.p != q
    ensures Only(Applied(ns, c, r), q) == Only(ns, q)
  {
    match c
    case Create(_, _, _, _) =>
      if 0 < r <= MAX_RECORDS {
        OnlyConcat(ns, [Made(c, r)], q);
        assert [Made(c, r)][1..] == [];
      }
    case Delete(p, index) =>
      if Position(ns, p, index) < |ns| {
        ListsAfterRemoval(ns, Position(ns, p, index), q);
      }
  }

  /** In every run without one of the two losses, whatever else failed, commands of the other
      protocols leave the list of protocol q as it was. */
  lemma {:induction false} OtherProtocolsUnmovedOverRuns(cmds: seq<Command>, results: seq<int>,
                                                         states: seq<seq<Network>>, n: nat, q: Protocol)
    requires n <= |cmds| && n <= |results| && n < |states|
    requires Trail(RULES, cmds, results, states, n) && NoLoss(RULES, cmds, results, states, n)
    requires forall i :: 0 <= i < n ==> cmds[i].p != q
    ensures Only(states[n], q) == Only(states[0], q)
  {
    if n > 0 {
      OtherProtocolsUnmovedOverRuns(cmds, results, states, n - 1, q);
      OtherProtocolsUnmoved(states[n - 1], cmds[n - 1], results[n - 1], q);
    }
  }
}
