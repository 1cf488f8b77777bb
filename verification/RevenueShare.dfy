/** The air-conditioning robot: it shares incoming payments with its investors and runs the fan
    for a while after each. */
module RevenueShare {
  // The range of BUINT32
  const U32: nat := 0x1_0000_0000
  const THRESHOLD: nat := 100000
  const FAN_TURNS: nat := 8

  datatype Option<T> = None | Some(value: T)

  /** What is sent to David and to Charlie. */
  datatype Share = Share(david: nat, charlie: nat)

  /** percent of delta as the code computes it: the product is taken in 32 bits. */
  function Portion(delta: nat, percent: nat): nat {
    delta * percent % U32 / 100
  }

  /** Whether a reading leads to a share. A reading of 0 is an error. */
  predicate Shares(baseline: nat, reading: nat) {
    reading > baseline && baseline != 0 && reading - baseline >= THRESHOLD
  }

  function ShareOf(baseline: nat, reading: nat): Option<Share> {
    if Shares(baseline, reading)
    then Some(Share(Portion(reading - baseline, 50), Portion(reading - baseline, 30)))
    else None
  }

  /** The baseline after a turn; `again` is what the balance reads after sharing. */
  function NextBaseline(baseline: nat, reading: nat, again: nat): nat {
    if reading > baseline && baseline == 0 then reading
    else if Shares(baseline, reading) then again
    else baseline
  }

  // The fan

  /** The counter left when the turns so far shared as given: it started at 8 with the last
      share, and has lost one at that turn and at every turn since. */
  predicate FanLeft(c: nat, shared: seq<bool>) {
    && c < FAN_TURNS
    && (c > 0 ==> FAN_TURNS - 1 - c < |shared| && shared[|shared| - 1 - (FAN_TURNS - 1 - c)])
    && forall j :: 0 <= j < |shared| && |shared| - j <= FAN_TURNS - 1 - c ==> !shared[j]
  }

  /** The fan is switched off at turn i exactly when turn i - 7 shared and none since did. */
  predicate SwitchesOff(shared: seq<bool>, i: nat)
    requires i < |shared|
  {
    i >= FAN_TURNS - 1 && shared[i - (FAN_TURNS - 1)] &&
    forall j :: 0 <= j <= i && i - j < FAN_TURNS - 1 ==> !shared[j]
  }

  ghost predicate OffSchedule(shared: seq<bool>, offs: seq<bool>) {
    |offs| == |shared| && forall i :: 0 <= i < |offs| ==> (offs[i] <==> SwitchesOff(shared, i))
  }

  class Robot {
    // g_banlanceOf and g_onoff
    var baseline: nat
    var onoff: nat
    // which turns so far shared, and which tried to switch the fan off
    ghost var shared: seq<bool>
    ghost var offs: seq<bool>

    ghost predicate Valid()
      reads this
    {
      FanLeft(onoff, shared) && OffSchedule(shared, offs)
    }

    constructor (reading: nat)
      ensures Valid() && baseline == reading && shared == []
    {
      baseline, onoff := reading, 0;
      shared, offs := [], [];
    }

    /** One turn of checkBanlanceLoop. */
    method Turn(reading: nat, again: nat) returns (share: Option<Share>, off: bool)
      requires Valid()
      modifies this
      ensures Valid() && onoff < FAN_TURNS
      ensures share == ShareOf(old(baseline), reading) && baseline == NextBaseline(old(baseline), reading, again)
      ensures shared == old(shared) + [share.Some?] && offs == old(offs) + [off]
    {
      ghost var c, s, o := onoff, shared, offs;
      share, off := None, false;
      if reading != 0 {
        if reading > baseline {
          if baseline == 0 {
            baseline := reading;
          } else if reading - baseline >= 100000 {
            onoff := 8;
            var delta := reading - baseline;
            var david := delta * 50 % U32 / 100;
            var charlie := delta * 30 % U32 / 100;
            share := Some(Share(david, charlie));
            baseline := again;
          }
        }
      }
      if onoff > 0 {
        if onoff == 1 {
          off := true;
        }
        onoff := onoff - 1;
      }
      shared, offs := s + [share.Some?], o + [off];
      NextTurn(c, s, o, share.Some?);
    }
  }

  /** The baseline after the first n turns with the given readings. */
  function BaselineAfter(initial: nat, readings: seq<(nat, nat)>, n: nat): nat
    requires n <= |readings|
  {
    if n == 0 then initial
    else NextBaseline(BaselineAfter(initial, readings, n - 1), readings[n - 1].0, readings[n - 1].1)
  }

  /** What the first n turns share. */
  function SharesFor(initial: nat, readings: seq<(nat, nat)>, n: nat): (r: seq<Option<Share>>)
    requires n <= |readings|
    ensures |r| == n
  {
    if n == 0 then []
    else SharesFor(initial, readings, n - 1) + [ShareOf(BaselineAfter(initial, readings, n - 1), readings[n - 1].0)]
  }

  /** checkBanlanceLoop, as long as there are readings: which turns share what, and which switch
      the fan off. */
  method CheckBalanceLoop(initial: nat, readings: seq<(nat, nat)>) returns (shares: seq<Option<Share>>, offs: seq<bool>)
    ensures shares == SharesFor(initial, readings, |readings|)
    ensures OffSchedule(Flags(shares), offs)
  {
    var robot := new Robot(initial);
    shares, offs := [], [];
    var n := 0;
    while n < |readings|
      invariant n <= |readings| && robot.Valid() && fresh(robot)
      invariant robot.baseline == BaselineAfter(initial, readings, n) && shares == SharesFor(initial, readings, n)
      invariant robot.shared == Flags(shares) && robot.offs == offs
    {
      var share, off := robot.Turn(readings[n].0, readings[n].1);
      FlagsSnoc(shares, share);
      shares, offs, n := shares + [share], offs + [off], n + 1;
    }
  }

  lemma FlagsSnoc(shares: seq<Option<Share>>, share: Option<Share>)
    ensures Flags(shares + [share]) == Flags(shares) + [share.Some?]
  {
  }

  function Flags(shares: seq<Option<Share>>): (r: seq<bool>)
    ensures |r| == |shares|
  {
    seq(|shares|, i requires 0 <= i < |shares| => shares[i].Some?)
  }

  /** The counter and the switching after one more turn. */
  lemma NextTurn(c: nat, shared: seq<bool>, offs: seq<bool>, share: bool)
    requires FanLeft(c, shared) && OffSchedule(shared, offs)
    ensures FanLeft(if share then FAN_TURNS - 1 else if c > 0 then c - 1 else 0, shared + [share])
    ensures OffSchedule(shared + [share], offs + [!share && c == 1])
  {
    var n, next := |shared|, shared + [share];
    forall i | 0 <= i < n ensures SwitchesOff(next, i) == SwitchesOff(shared, i) {
      forall j | 0 <= j <= i ensures next[j] == shared[j] {
      }
    }
    LastTurn(c, shared, share);
  }

  lemma LastTurn(c: nat, shared: seq<bool>, share: bool)
    requires FanLeft(c, shared)
    ensures SwitchesOff(shared + [share], |shared|) <==> !share && c == 1
  {
    var n, next := |shared|, shared + [share];
    if share {
      assert next[n];
    } else if c > 1 {
      var j := n - 1 - (FAN_TURNS - 1 - c);
      assert next[j];
    } else if c == 1 {
      assert next[n - (FAN_TURNS - 1)];
    } else if n >= FAN_TURNS - 1 {
      assert !shared[n - (FAN_TURNS - 1)];
    }
  }

  /** What the commands of the first n turns leave the fan at: a share switches it on. */
  predicate FanOn(shared: seq<bool>, offs: seq<bool>, n: nat)
    requires n <= |shared| && n <= |offs|
  {
    n > 0 && (shared[n - 1] || (!offs[n - 1] && FanOn(shared, offs, n - 1)))
  }

  /** Some turn of the last k before turn n shared. */
  predicate SharedWithin(shared: seq<bool>, n: nat, k: nat)
    requires n <= |shared|
  {
    exists j :: 0 <= j < n && n - j <= k && shared[j]
  }

  /** Over every run: the fan runs exactly when one of the last seven turns shared. */
  lemma {:induction false} FanRunsSevenTurns(shared: seq<bool>, offs: seq<bool>, n: nat)
    requires OffSchedule(shared, offs) && n <= |shared|
    ensures FanOn(shared, offs, n) <==> SharedWithin(shared, n, 7)
  {
    if n > 0 {
      var i, k := n - 1, FAN_TURNS - 1;
      FanRunsSevenTurns(shared, offs, i);
      assert offs[i] <==> SwitchesOff(shared, i);
      if shared[i] {
        assert SharedWithin(shared, n, k);
      } else if i >= k && shared[i - k] {
        assert SharedWithin(shared, i, k);
      }
    }
  }

  /** Attempts to switch off never outnumber the shares at least seven turns back. */
  lemma {:induction false} NoMoreOffsThanShares(shared: seq<bool>, offs: seq<bool>, n: nat)
    requires OffSchedule(shared, offs) && n <= |shared|
    ensures Count(offs, n) <= Count(shared, if n < 7 then 0 else n - 7)
  {
    if n > 0 {
      NoMoreOffsThanShares(shared, offs, n - 1);
      assert offs[n - 1] <==> SwitchesOff(shared, n - 1);
    }
  }

  /** How many of the first n are true. */
  function Count(bs: seq<bool>, n: nat): nat
    requires n <= |bs|
  {
    if n == 0 then 0 else Count(bs, n - 1) + (if bs[n - 1] then 1 else 0)
  }

  // The money

  /** What happens on the ledger without the robot's program: someone pays the robot, or a
      transfer of the robot, perhaps submitted long ago, takes effect. */
  datatype Movement = Income(amount: nat) | Outgoing(amount: nat)

  /** Movements, or a turn of the loop; readings may fail, and the ledger moves on between the
      two readings of a turn. */
  datatype Event = Moves(ms: seq<Movement>) | Turn(ok: bool, between: seq<Movement>, okAgain: bool)

  /** The ledger, the baseline, and what has been shared so far: `basis` is the sum of all
      amounts that were shared. */
  datatype World = World(balance: nat, income: nat, baseline: nat, basis: nat, david: nat, charlie: nat)

  function Move(w: World, m: Movement): World {
    match m
    case Income(x) => w.(balance := w.balance + x, income := w.income + x)
    case Outgoing(x) => if x <= w.balance then w.(balance := w.balance - x) else w
  }

  function MoveAll(w: World, ms: seq<Movement>): World
    decreases |ms|
  {
    if ms == [] then w else MoveAll(Move(w, ms[0]), ms[1..])
  }

  /** A balance read through 32 bits; a failing call reads 0. */
  function Reading(w: World, ok: bool): nat {
    if ok then w.balance % U32 else 0
  }

  function Step(w: World, e: Event): World {
    match e
    case Moves(ms) => MoveAll(w, ms)
    case Turn(ok, between, okAgain) =>
      var reading := Reading(w, ok);
      var moved := MoveAll(w, between);
      var next := moved.(baseline := NextBaseline(w.baseline, reading, Reading(moved, okAgain)));
      match ShareOf(w.baseline, reading)
      case None => next
      case Some(s) =>
        next.(basis := w.basis + (reading - w.baseline), david := w.david + s.david, charlie := w.charlie + s.charlie)
  }

  function Run(w: World, es: seq<Event>): World
    decreases |es|
  {
    if es == [] then w else Run(Step(w, es[0]), es[1..])
  }

  /** Whenever the robot reads its balance, it fits 32 bits. */
  predicate Readable(w: World, e: Event) {
    e.Turn? ==> w.balance < U32 && MoveAll(w, e.between).balance < U32
  }

  predicate AllReadable(w: World, es: seq<Event>)
    decreases |es|
  {
    es == [] || (Readable(w, es[0]) && AllReadable(Step(w, es[0]), es[1..]))
  }

  /** What has been shared, and what the balance has grown above the baseline since, has come in. */
  predicate Covered(w: World) {
    w.basis <= w.income &&
    (w.baseline != 0 && w.balance > w.baseline ==> w.basis + (w.balance - w.baseline) <= w.income)
  }

  predicate Fair(w: World) {
    w.david * 100 <= w.basis * 50 && w.charlie * 100 <= w.basis * 30
  }

  lemma {:induction false} MovesCovered(w: World, ms: seq<Movement>)
    requires Covered(w)
    ensures var v := MoveAll(w, ms);
      && Covered(v) && v.baseline == w.baseline && v.basis == w.basis && v.income >= w.income
      && v.david == w.david && v.charlie == w.charlie
    decreases |ms|
  {
    if ms != [] {
      MovesCovered(Move(w, ms[0]), ms[1..]);
    }
  }

  /** The 32-bit product can only be too small. */
  lemma PortionBound(delta: nat, percent: nat)
    ensures Portion(delta, percent) * 100 <= delta * percent
  {
    WrapDown(delta * percent);
  }

  lemma WrapDown(x: nat)
    ensures x % U32 <= x
  {
  }

  lemma StepCovered(w: World, e: Event)
    requires Covered(w) && Fair(w) && Readable(w, e)
    ensures Covered(Step(w, e)) && Fair(Step(w, e))
  {
    match e
    case Moves(ms) =>
      MovesCovered(w, ms);
    case Turn(ok, between, okAgain) =>
      MovesCovered(w, between);
      var moved := MoveAll(w, between);
      if Shares(w.baseline, Reading(w, ok)) {
        SharedTurn(moved, Reading(w, ok) - w.baseline, okAgain);
      } else if Reading(w, ok) > w.baseline && w.baseline == 0 {
        StartBaseline(w, between, ok);
      } else {
        assert moved.(baseline := w.baseline) == moved;
      }
  }

  /** The ledger has moved on while delta was shared. */
  lemma SharedTurn(w: World, delta: nat, okAgain: bool)
    requires w.balance < U32 && Fair(w) && w.basis + delta <= w.income
    ensures var next := w.(baseline := Reading(w, okAgain), basis := w.basis + delta,
                           david := w.david + Portion(delta, 50), charlie := w.charlie + Portion(delta, 30));
      Covered(next) && Fair(next)
  {
    PortionBound(delta, 50);
    PortionBound(delta, 30);
    FreshBaseline(w, w.basis + delta, okAgain);
  }

  /** After sharing, the baseline is the balance itself, or 0 when it cannot be read. */
  lemma FreshBaseline(w: World, basis: nat, ok: bool)
    requires w.balance < U32 && basis <= w.income
    ensures var b := Reading(w, ok);
      b == 0 || w.balance <= b
  {
  }

  /** A baseline taken when there was none leaves out what moved before. */
  lemma StartBaseline(w: World, ms: seq<Movement>, ok: bool)
    requires Covered(w) && w.balance < U32 && w.baseline == 0 && Reading(w, ok) > 0
    ensures Covered(MoveAll(w, ms).(baseline := Reading(w, ok)))
  {
    var v := w.(baseline := Reading(w, ok));
    MovesCovered(v, ms);
    MovesIgnoreBaseline(w, ms, Reading(w, ok));
  }

  lemma {:induction false} MovesIgnoreBaseline(w: World, ms: seq<Movement>, b: nat)
    ensures MoveAll(w.(baseline := b), ms) == MoveAll(w, ms).(baseline := b)
    decreases |ms|
  {
    if ms != [] {
      MovesIgnoreBaseline(Move(w, ms[0]), ms[1..], b);
      assert Move(w.(baseline := b), ms[0]) == Move(w, ms[0]).(baseline := b);
    }
  }

  /** The robot as it starts, with or without a readable balance. */
  function Start(balance: nat, ok: bool): World {
    var w := World(balance, 0, 0, 0, 0, 0);
    w.(baseline := Reading(w, ok))
  }

  lemma {:induction false} RunCovered(w: World, es: seq<Event>)
    requires Covered(w) && Fair(w) && AllReadable(w, es)
    ensures Covered(Run(w, es)) && Fair(Run(w, es))
    decreases |es|
  {
    if es != [] {
      StepCovered(w, es[0]);
      RunCovered(Step(w, es[0]), es[1..]);
    }
  }

  /** Over every run with readable balances, David is sent at most 50% and Charlie at most 30% of
      everything that came in. */
  lemma SharesAreCovered(balance: nat, ok: bool, es: seq<Event>)
    requires balance < U32 && AllReadable(Start(balance, ok), es)
    ensures var w := Run(Start(balance, ok), es);
      w.david * 100 <= w.income * 50 && w.charlie * 100 <= w.income * 30
  {
    RunCovered(Start(balance, ok), es);
  }

  /** A share is exact unless the product wraps around; then it is too small. */
  lemma PortionExact(delta: nat)
    ensures Portion(delta, 50) == delta * 50 / 100 <==> delta <= 85899345
    ensures Portion(delta, 30) == delta * 30 / 100 <==> delta <= 143165576
    ensures Portion(delta, 50) <= delta * 50 / 100 && Portion(delta, 30) <= delta * 30 / 100
  {
    WrapLoses(delta * 50);
    WrapLoses(delta * 30);
  }

  /** In general what is lost are the multiples of 2^32 of the product: at the smallest amount whose
      product wraps around, everything. */
  lemma PortionValue(delta: nat, percent: nat)
    ensures var wraps := delta * percent / 0x1_0000_0000;
      Portion(delta, percent) == (delta * percent - wraps * 0x1_0000_0000) / 100 <= 42949672
    ensures Portion(85899346, 50) == Portion(143165577, 30) == 0
  {
  }

  lemma WrapLoses(x: nat)
    ensures x % U32 / 100 <= x / 100
    ensures x % U32 / 100 == x / 100 <==> x < U32
  {
    if x >= U32 {
      var q := x / U32;
      assert x == q * U32 + x % U32;
      assert x >= U32 + x % U32;
      assert x / 100 >= (100 + x % U32) / 100 == 1 + x % U32 / 100;
    }
  }

  function Sum(xs: seq<nat>): nat {
    if xs == [] then 0 else xs[0] + Sum(xs[1..])
  }

  /** Payments that arrive one by one, each followed by a turn. */
  function Arrivals(xs: seq<nat>): seq<Event> {
    if xs == [] then [] else [Moves([Income(xs[0])]), Turn(true, [], true)] + Arrivals(xs[1..])
  }

  lemma RunTwo(w: World, a: Event, b: Event, es: seq<Event>)
    ensures Run(w, [a, b] + es) == Run(Step(Step(w, a), b), es)
  {
    assert ([a, b] + es)[1..] == [b] + es;
    assert ([b] + es)[1..] == es;
  }

  /** Payments below the threshold are not lost: the baseline stays, and the first payment that
      brings the total to the threshold leads to a share of the whole total. */
  lemma {:induction false} SmallPaymentsAccumulate(w: World, xs: seq<nat>)
    requires xs != [] && 0 < w.baseline <= w.balance && w.balance + Sum(xs) < U32
    requires w.balance - w.baseline + Sum(xs[..|xs| - 1]) < THRESHOLD <= w.balance - w.baseline + Sum(xs)
    ensures Run(w, Arrivals(xs)).basis == w.basis + (w.balance - w.baseline + Sum(xs))
    decreases |xs|
  {
    var paid := w.(balance := w.balance + xs[0], income := w.income + xs[0]);
    FirstArrival(w, xs, paid);
    PlainTurn(paid);
    if |xs| > 1 {
      SumFront(xs);
      SmallPaymentsAccumulate(paid, xs[1..]);
    }
  }

  lemma FirstArrival(w: World, xs: seq<nat>, paid: World)
    requires xs != [] && paid == Move(w, Income(xs[0]))
    ensures Run(w, Arrivals(xs)) == Run(Step(paid, Turn(true, [], true)), Arrivals(xs[1..]))
    ensures |xs| == 1 ==> Run(w, Arrivals(xs)) == Step(paid, Turn(true, [], true)) && Sum(xs) == xs[0]
  {
    MoveOne(w, Income(xs[0]));
    RunTwo(w, Moves([Income(xs[0])]), Turn(true, [], true), Arrivals(xs[1..]));
    assert |xs| == 1 ==> xs[1..] == [];
  }

  lemma SumFront(xs: seq<nat>)
    requires |xs| > 1
    ensures Sum(xs[..|xs| - 1]) == xs[0] + Sum(xs[1..][..|xs[1..]| - 1])
  {
    assert xs[..|xs| - 1][1..] == xs[1..][..|xs[1..]| - 1];
  }

  lemma MoveOne(w: World, m: Movement)
    ensures Step(w, Moves([m])) == Move(w, m)
  {
    assert [m][1..] == [];
    assert MoveAll(w, [m]) == MoveAll(Move(w, m), []);
  }

  /** A turn with readable balances and nothing moving in between. */
  lemma PlainTurn(w: World)
    requires 0 < w.baseline <= w.balance < U32
    ensures var v := Step(w, Turn(true, [], true));
      if w.balance - w.baseline < THRESHOLD then v == w else v.basis == w.basis + (w.balance - w.baseline)
  {
    var e := Turn(true, [], true);
    assert Reading(w, true) == w.balance && MoveAll(w, []) == w;
    if w.balance - w.baseline < THRESHOLD {
      assert Step(w, e) == w.(baseline := w.baseline) == w;
    } else {
      assert Shares(w.baseline, w.balance);
    }
  }

  /** The baseline behind a turn. One that shares with a good second reading starts anew from the
      balance as it then is, payouts and income in between included; with a failing one from nothing. */
  lemma TurnBaseline(w: World, between: seq<Movement>, ok: bool, okAgain: bool)
    ensures var reading := if ok then w.balance % 0x1_0000_0000 else 0;
      Step(w, Turn(ok, between, okAgain)).baseline ==
      if w.baseline == 0 then reading
      else if reading < w.baseline + 100000 then w.baseline
      else if okAgain then MoveAll(w, between).balance % 0x1_0000_0000
      else 0
  {
    MovesKeepBaseline(w, between);
  }

  lemma {:induction false} MovesKeepBaseline(w: World, ms: seq<Movement>)
    ensures var v := MoveAll(w, ms); v.baseline == w.baseline && v.basis == w.basis
    decreases |ms|
  {
    if ms != [] {
      MovesKeepBaseline(Move(w, ms[0]), ms[1..]);
    }
  }

  /** A turn that shares, with good readings, adds to the basis exactly what the balance had grown. */
  lemma SharingTurn(w: World, between: seq<Movement>)
    requires 0 < w.baseline && w.baseline + 100000 <= w.balance < U32 && MoveAll(w, between).balance < U32
    ensures var v := Step(w, Turn(true, between, true));
      v.basis == w.basis + (w.balance - w.baseline) && v.baseline == v.balance == MoveAll(w, between).balance
  {
    MovesKeepBaseline(w, between);
  }

  /** A later income is shared in full although earlier payouts have taken effect since the first
      reading; what has come in between the two readings of a turn is never shared. */
  lemma LaterIncomeShared(w: World, x: nat, between: seq<Movement>, y: nat)
    requires 0 < w.baseline <= w.balance && w.balance + x < U32 && w.balance - w.baseline + x >= 100000
    requires var b := MoveAll(w.(balance := w.balance + x, income := w.income + x), between).balance;
      0 < b && b + y < U32 && y >= 100000
    ensures Run(w, [Moves([Income(x)]), Turn(true, between, true), Moves([Income(y)]), Turn(true, [], true)]).basis ==
      w.basis + (w.balance - w.baseline + x) + y
  {
    var paid := w.(balance := w.balance + x, income := w.income + x);
    MoveOne(w, Income(x));
    var shared := Step(paid, Turn(true, between, true));
    SharingTurn(paid, between);
    MoveOne(shared, Income(y));
    SharingTurn(Move(shared, Income(y)), []);
    var rest := [Moves([Income(y)]), Turn(true, [], true)];
    RunTwo(w, Moves([Income(x)]), Turn(true, between, true), rest);
    RunTwo(shared, Moves([Income(y)]), Turn(true, [], true), []);
    assert [Moves([Income(x)]), Turn(true, between, true)] + rest ==
      [Moves([Income(x)]), Turn(true, between, true), Moves([Income(y)]), Turn(true, [], true)];
    assert rest + [] == rest;
  }

  /** A withdrawal is shared as if it were income exactly when the two readings, each modulo 2^32,
      rise by the threshold; then the bound fails, as nothing has come in. */
  lemma LargeBalance(balance: nat, x: nat)
    requires x <= balance
    ensures var before, after := balance % U32, (balance - x) % U32;
      var w := Run(Start(balance, true), [Moves([Outgoing(x)]), Turn(true, [], true)]);
      && w.income == 0
      && (w.basis > 0 <==> before > 0 && after >= before + THRESHOLD)
      && (w.basis > 0 ==> w.basis == after - before && balance >= U32)
      && w.david == (if w.basis > 0 then Portion(w.basis, 50) else 0)
      && w.charlie == (if w.basis > 0 then Portion(w.basis, 30) else 0)
  {
    var w := Start(balance, true);
    MoveOne(w, Outgoing(x));
    RunTwo(w, Moves([Outgoing(x)]), Turn(true, [], true), []);
    assert [Moves([Outgoing(x)]), Turn(true, [], true)] + [] == [Moves([Outgoing(x)]), Turn(true, [], true)];
    LargeTurn(w.(balance := balance - x), balance % U32, (balance - x) % U32);
    if (balance - x) % U32 > balance % U32 {
      SmallRemainder(balance, x);
    }
  }

  /** The turn behind the withdrawal. */
  lemma LargeTurn(w: World, before: nat, after: nat)
    requires w.baseline == before && w.balance % U32 == after && w.basis == w.david == w.charlie == 0
    ensures var v := Step(w, Turn(true, [], true)); var delta := if Shares(before, after) then after - before else 0;
      v.income == w.income && v.basis == delta && v.david == Portion(delta, 50) && v.charlie == Portion(delta, 30)
  {
  }

  lemma SmallRemainder(balance: nat, x: nat)
    requires x <= balance && (balance - x) % U32 > balance % U32
    ensures balance >= U32
  {
  }
}
