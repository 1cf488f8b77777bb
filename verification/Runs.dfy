/** Runs of commands on a store whose operations may fail. The keypair store and the network
    store each supply their rules. */
module Runs {
  /** How commands change what a file holds. A good command is one that the interface allows; a
      served one is not let down by anything but the file. `next` is an undisturbed command,
      `applied` one that was answered with a result, and `loss` a failure that costs records;
      `unserved` bounds what a command leaves that is not served. */
  datatype Rules<!S, !C> = Rules(good: C -> bool, served: C -> bool, next: (S, C) -> S,
                                 applied: (S, C, int) -> S, loss: (S, C, int, S) -> bool,
                                 ghost unserved: (S, C, S) -> bool)

  /** The first n commands are good. */
  predicate AllGood<S, C>(rules: Rules<S, C>, cmds: seq<C>, n: nat)
    requires n <= |cmds|
  {
    n == 0 || (AllGood(rules, cmds, n - 1) && rules.good(cmds[n - 1]))
  }

  lemma {:induction false} GoodAt<S, C>(rules: Rules<S, C>, cmds: seq<C>, n: nat, i: nat)
    requires i < n <= |cmds| && AllGood(rules, cmds, n)
    ensures rules.good(cmds[i])
  {
    if i < n - 1 {
      GoodAt(rules, cmds, n - 1, i);
    }
  }

  /** What the file holds after the first n commands of an undisturbed run. */
  function Replay<S, C>(rules: Rules<S, C>, start: S, cmds: seq<C>, n: nat): S
    requires n <= |cmds|
  {
    if n == 0 then start else rules.next(Replay(rules, start, cmds, n - 1), cmds[n - 1])
  }

  /** A command, its answer, and what the file held before and after. */
  ghost predicate Step<S, C>(rules: Rules<S, C>, before: S, c: C, r: int, after: S) {
    if rules.served(c) then after == rules.applied(before, c, r) || rules.loss(before, c, r, after)
    else rules.unserved(before, c, after)
  }

  /** The first n commands, their answers, and what the file held before and after each. */
  ghost predicate Trail<S, C>(rules: Rules<S, C>, cmds: seq<C>, results: seq<int>, states: seq<S>, n: nat)
    requires n <= |cmds| && n <= |results| && n < |states|
  {
    n == 0 ||
    (Trail(rules, cmds, results, states, n - 1) && Step(rules, states[n - 1], cmds[n - 1], results[n - 1], states[n]))
  }

  /** None of the first n commands was a loss. */
  ghost predicate NoLoss<S, C>(rules: Rules<S, C>, cmds: seq<C>, results: seq<int>, states: seq<S>, n: nat)
    requires n <= |cmds| && n <= |results| && n < |states|
  {
    n == 0 ||
    (NoLoss(rules, cmds, results, states, n - 1) && rules.served(cmds[n - 1]) &&
     !rules.loss(states[n - 1], cmds[n - 1], results[n - 1], states[n]))
  }

  /** The first n commands applied, those that failed left out. */
  function Kept<S, C>(rules: Rules<S, C>, start: S, cmds: seq<C>, results: seq<int>, n: nat): S
    requires n <= |cmds| && n <= |results|
  {
    if n == 0 then start
    else rules.applied(Kept(rules, start, cmds, results, n - 1), cmds[n - 1], results[n - 1])
  }

  /** Whatever else failed in a run: unless one of the losses occurred, the file holds what the
      successful commands give. */
  lemma {:induction false} LosslessRun<S, C>(rules: Rules<S, C>, cmds: seq<C>, results: seq<int>, states: seq<S>, n: nat)
    requires n <= |cmds| && n <= |results| && n < |states|
    requires Trail(rules, cmds, results, states, n) && NoLoss(rules, cmds, results, states, n)
    ensures states[n] == Kept(rules, states[0], cmds, results, n)
  {
    if n > 0 {
      LosslessRun(rules, cmds, results, states, n - 1);
    }
  }

  lemma {:induction false} TrailPrefix<S, C>(rules: Rules<S, C>, cmds: seq<C>, results: seq<int>, states: seq<S>, n: nat,
                                             more: seq<int>, moreStates: seq<S>)
    requires n <= |cmds| && n <= |results| && n < |states|
    requires results <= more && states <= moreStates && Trail(rules, cmds, results, states, n)
    ensures Trail(rules, cmds, more, moreStates, n)
  {
    if n > 0 {
      TrailPrefix(rules, cmds, results, states, n - 1, more, moreStates);
    }
  }

  /** Where a run stands: `now` is what the file holds; `clean` says that no operation has failed. */
  ghost predicate Progress<S, C>(rules: Rules<S, C>, cmds: seq<C>, results: seq<int>, states: seq<S>,
                                 start: S, now: S, clean: bool) {
    && |results| <= |cmds| && |states| == |results| + 1 && states[0] == start && states[|results|] == now
    && Trail(rules, cmds, results, states, |results|)
    && (clean ==> now == Replay(rules, start, cmds, |results|))
  }

  lemma Progressed<S, C>(rules: Rules<S, C>, cmds: seq<C>, results: seq<int>, states: seq<S>, start: S,
                         before: S, wasClean: bool, r: int, now: S, clean: bool)
    requires Progress(rules, cmds, results, states, start, before, wasClean)
    requires |results| < |cmds| && Step(rules, before, cmds[|results|], r, now)
    requires clean ==> wasClean && now == rules.next(before, cmds[|results|])
    ensures Progress(rules, cmds, results + [r], states + [now], start, now, clean)
  {
    TrailPrefix(rules, cmds, results, states, |results|, results + [r], states + [now]);
  }
}
