/**
 From stored jet drops to the frontier: one pass of the maintainer and the
 rounds of the sequencer after it, without interference.
 */
module Progress {
  import opened Common
  import opened Tables
  import opened Pipeline
  import opened Tracking
  import opened Sequencer
  import opened ControllerActions
  import C = Controller
  import JetTree

  /** Complete already, or noticed: the entry holds all stored jets, and they tile the tree. */
  ghost predicate Ready(s: State, key: PulseKey) {
    && key.no in s.db.pulses
    && (s.db.pulses[key.no].complete || (Exact(s, key) && JetTree.Tiles(StoredJets(s.db, key.no))))
  }

  /** Between passes. */
  ghost predicate Resting(s: State, order: seq<PulseKey>) {
    s.scan == map[] && s.erasing == {} && s.seqStep == Idle && IsOrderOf(order, s.register.Keys)
  }

  ghost function Passed(s: State): State {
    var finished := C.Finished(s.register, s.db);
    s.(db := s.db.(pulses := C.MarkAll(s.db.pulses, finished)), register := s.register - finished)
  }

  /** A pass, in any order of the entries, completes every pulse that is ready. */
  lemma PassCompletes(prevOf: int -> int, s: State, order: seq<PulseKey>, key: PulseKey)
    requires Resting(s, order) && Ready(s, key)
    ensures var pass := PassActions(s.db, s.register, order);
      && CanExec(prevOf, s, pass) && Exec(s, pass) == Passed(s)
      && key.no in Passed(s).db.pulses && Passed(s).db.pulses[key.no].complete
  {
    PassIsActions(prevOf, s, order);
    if !s.db.pulses[key.no].complete {
      assert key in C.Finished(s.register, s.db);
    }
  }

  /** A pass changes no link. */
  lemma PassKeepsLinks(s: State)
    ensures Passed(s).db.pulses.Keys == s.db.pulses.Keys
    ensures forall n :: n in s.db.pulses ==> Passed(s).db.pulses[n].prev == s.db.pulses[n].prev
    ensures LinksDown(s.db) ==> LinksDown(Passed(s).db)
    ensures OneSuccessor(s.db) ==> OneSuccessor(Passed(s).db)
  {
  }

  ghost predicate ReadyChain(s: State, keyOf: Keys, chain: seq<int>) {
    forall i :: 0 <= i < |chain| ==> ReadyAfter(s, keyOf, Last(s.frontier, chain[..i]), chain[i])
  }

  /** Pulse n is ready, and linked to `prev`. */
  ghost predicate ReadyAfter(s: State, keyOf: Keys, prev: int, n: int) {
    n in s.db.pulses && s.db.pulses[n].prev == prev && Ready(s, keyOf(n))
  }

  lemma ReadyCompletes(prevOf: int -> int, keyOf: Keys, s: State, order: seq<PulseKey>, prev: int, n: int)
    requires ProperKeys(keyOf) && Resting(s, order) && ReadyAfter(s, keyOf, prev, n)
    ensures CompleteAfter(Passed(s).db, prev, n)
  {
    PassKeepsLinks(s);
    PassCompletes(prevOf, s, order, keyOf(n));
  }

  lemma ReadyIsLinked(prevOf: int -> int, keyOf: Keys, s: State, order: seq<PulseKey>, chain: seq<int>)
    requires ProperKeys(keyOf) && Resting(s, order) && ReadyChain(s, keyOf, chain)
    ensures LinkedFrom(Passed(s).db, s.frontier, chain)
  {
    var db := Passed(s).db;
    forall i | 0 <= i < |chain| ensures CompleteAfter(db, Last(s.frontier, chain[..i]), chain[i]) {
      ReadyCompletes(prevOf, keyOf, s, order, Last(s.frontier, chain[..i]), chain[i]);
    }
  }

  lemma {:induction false} PathMarked(db: Db, path: seq<int>, i: nat)
    requires i < |path| && forall n :: n in path ==> n in db.pulses
    ensures path[i] in MarkPath(db, path).pulses && MarkPath(db, path).pulses[path[i]].sequential
  {
    var n := |path| - 1;
    MarkPathKeeps(db, path[..n]);
    assert path[n] in path;
    if i < n {
      PathMarked(db, path[..n], i);
    }
  }

  ghost predicate Sequential(db: Db, n: int) {
    n in db.pulses && db.pulses[n].complete && db.pulses[n].sequential
  }

  lemma PathSequential(db: Db, frontier: int, path: seq<int>, i: nat)
    requires LinkedFrom(db, frontier, path) && i < |path|
    ensures Sequential(MarkPath(db, path), path[i])
  {
    forall n | n in path ensures n in db.pulses {
      var k :| 0 <= k < |path| && path[k] == n;
    }
    MarkPathKeeps(db, path);
    PathMarked(db, path, i);
  }

  /**
   From any reachable state between passes, with unique successors: one pass,
   in any order of the entries, and the rounds after it take the frontier along
   every prev-linked chain of ready pulses, and mark all of them sequential.
   */
  lemma ReadyChainsAdvance(
    prevOf: int -> int, keyOf: Keys, states: seq<State>, actions: seq<Action>, i: nat,
    order: seq<PulseKey>, chain: seq<int>)
    returns (path: seq<int>)
    requires Ascending(prevOf) && ProperKeys(keyOf) && Run(prevOf, states, actions) && i < |states|
    requires Resting(states[i], order) && OneSuccessor(states[i].db) && ReadyChain(states[i], keyOf, chain)
    ensures chain <= path
    ensures var s := states[i];
      var all := PassActions(s.db, s.register, order) + Rounds(path);
      && CanExec(prevOf, s, all) && Exec(s, all).frontier == Last(s.frontier, path)
      && (forall k :: 0 <= k < |path| ==> Sequential(Exec(s, all).db, path[k]))
      && (forall n :: !Enabled(prevOf, Exec(s, all), FindNext(n)))
  {
    var s := states[i];
    var pass := PassActions(s.db, s.register, order);
    PassIsActions(prevOf, s, order);
    ReachableLinks(prevOf, states, actions, i);
    PassKeepsLinks(s);
    path := ReachesTipFrom(prevOf, Passed(s));
    ReadyIsLinked(prevOf, keyOf, s, order, chain);
    ExecConcat(prevOf, s, pass, Rounds(path));
    forall k | 0 <= k < |path| ensures Sequential(MarkPath(Passed(s).db, path), path[k]) {
      PathSequential(Passed(s).db, s.frontier, path, k);
    }
  }

  /**
   When a pulse is ready: its stored drops tile, none of its drops is in
   flight, and every jet stored at the last reset of its entry was put back or
   has been notified since.
   */
  lemma StoredIsReady(prevOf: int -> int, keyOf: Keys, states: seq<State>, actions: seq<Action>, i: nat, n: int)
    requires ProperKeys(keyOf) && Run(prevOf, states, actions) && i < |states|
    requires forall a :: a in actions ==> Delivers(keyOf, a)
    requires n in states[i].db.pulses && InFlight(states[i].tasks, keyOf(n)) == {}
    requires JetTree.Tiles(StoredJets(states[i].db, n)) && !states[i].db.pulses[n].complete
    ensures var h := HistoryAt(states, actions, keyOf(n), i);
      Ready(states[i], keyOf(n)) <==> h.stored <= h.restored + h.notified
  {
    RegisterIsExact(prevOf, keyOf, states, actions, i, n);
  }
}
