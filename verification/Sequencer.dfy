/**
 Progress of the sequencer: left alone, its rounds take the frontier to the
 end of the chain of complete pulses ahead of it.
 */
module Sequencer {
  import opened Common
  import opened Tables
  import opened Pipeline

  /** One round that moves on to pulse n. */
  function Round(n: int): seq<Action> {
    [FindNext(n), Mark, Advance]
  }

  function Rounds(path: seq<int>): seq<Action> {
    if path == [] then [] else Rounds(path[..|path| - 1]) + Round(path[|path| - 1])
  }

  function Last(frontier: int, path: seq<int>): int {
    if path == [] then frontier else path[|path| - 1]
  }

  /** The pulse the sequencer looks at next, if it is complete. */
  ghost predicate IsNext(db: Db, frontier: int, n: int) {
    IsLeast(n, WithPrev(db, frontier)) && db.pulses[n].complete
  }

  ghost predicate NothingNext(db: Db, frontier: int) {
    forall n :: !IsNext(db, frontier, n)
  }

  ghost predicate Ahead(db: Db, frontier: int, path: seq<int>) {
    forall i :: 0 <= i < |path| ==> IsNext(db, Last(frontier, path[..i]), path[i])
  }

  function MarkPath(db: Db, path: seq<int>): Db {
    if path == [] then db else SequencePulse(MarkPath(db, path[..|path| - 1]), path[|path| - 1]).db
  }

  lemma RoundMoves(prevOf: int -> int, s: State, n: int)
    requires s.seqStep == Idle && IsNext(s.db, s.frontier, n)
    ensures CanExec(prevOf, s, Round(n))
    ensures Exec(s, Round(n)) == s.(db := SequencePulse(s.db, n).db, frontier := n)
  {
    ExecOne(prevOf, s, [], FindNext(n));
    ExecOne(prevOf, s, [FindNext(n)], Mark);
    ExecOne(prevOf, s, [FindNext(n), Mark], Advance);
    assert [] + [FindNext(n)] == [FindNext(n)] && [FindNext(n)] + [Mark] == [FindNext(n), Mark];
    assert [FindNext(n), Mark] + [Advance] == Round(n);
  }

  /** Marking pulses sequential changes neither links nor completeness. */
  lemma {:induction false} MarkPathKeeps(db: Db, path: seq<int>)
    ensures MarkPath(db, path).pulses.Keys == db.pulses.Keys
    ensures forall n :: n in db.pulses ==>
      var row := MarkPath(db, path).pulses[n]; row.prev == db.pulses[n].prev && row.complete == db.pulses[n].complete
    ensures forall f :: WithPrev(MarkPath(db, path), f) == WithPrev(db, f)
  {
    if path != [] {
      MarkPathKeeps(db, path[..|path| - 1]);
    }
  }

  /** The rounds along a path ahead of the frontier are enabled one after the other. */
  lemma {:induction false} RoundsMove(prevOf: int -> int, s: State, path: seq<int>)
    requires s.seqStep == Idle && Ahead(s.db, s.frontier, path)
    ensures CanExec(prevOf, s, Rounds(path))
    ensures Exec(s, Rounds(path)) == s.(db := MarkPath(s.db, path), frontier := Last(s.frontier, path))
  {
    if path != [] {
      var n := |path| - 1;
      var before := path[..n];
      forall i | 0 <= i < n ensures IsNext(s.db, Last(s.frontier, before[..i]), before[i]) {
        assert before[..i] == path[..i];
      }
      RoundsMove(prevOf, s, before);
      MarkPathKeeps(s.db, before);
      var mid := Exec(s, Rounds(before));
      assert IsNext(s.db, Last(s.frontier, before), path[n]);
      RoundMoves(prevOf, mid, path[n]);
      ExecConcat(prevOf, s, Rounds(before), Round(path[n]));
    }
  }

  ghost predicate LinksDown(db: Db) {
    forall n :: n in db.pulses ==> db.pulses[n].prev < n
  }

  function Above(db: Db, frontier: int): set<int> {
    set n | n in db.pulses && n > frontier
  }

  lemma AheadCons(db: Db, frontier: int, n: int, rest: seq<int>)
    requires IsNext(db, frontier, n) && Ahead(db, n, rest)
    ensures Ahead(db, frontier, [n] + rest) && Last(frontier, [n] + rest) == Last(n, rest)
  {
    var path := [n] + rest;
    forall i | 0 <= i < |path| ensures IsNext(db, Last(frontier, path[..i]), path[i]) {
      if i > 0 {
        assert path[..i] == [n] + rest[..i - 1];
        assert Last(frontier, path[..i]) == Last(n, rest[..i - 1]);
        assert IsNext(db, Last(n, rest[..i - 1]), rest[i - 1]);
      }
    }
  }

  lemma {:induction false} LongestPath(db: Db, frontier: int) returns (path: seq<int>)
    requires LinksDown(db)
    ensures Ahead(db, frontier, path) && NothingNext(db, Last(frontier, path))
    decreases |Above(db, frontier)|
  {
    path := [];
    if n :| IsNext(db, frontier, n) {
      assert n in Above(db, frontier) && n !in Above(db, n);
      assert Above(db, n) <= Above(db, frontier) - {n};
      SubsetSize(Above(db, n), Above(db, frontier) - {n});
      var rest := LongestPath(db, n);
      path := [n] + rest;
      AheadCons(db, frontier, n, rest);
    }
  }

  lemma {:induction false} SubsetSize(a: set<int>, b: set<int>)
    requires a <= b
    ensures |a| <= |b|
  {
    if a != {} {
      SomeMember(a);
      var x :| x in a;
      SubsetSize(a - {x}, b - {x});
    }
  }

  ghost predicate CompleteAfter(db: Db, prev: int, n: int) {
    n in db.pulses && db.pulses[n].complete && db.pulses[n].prev == prev
  }

  /** A prev-linked chain of complete pulses from the frontier. */
  ghost predicate LinkedFrom(db: Db, frontier: int, chain: seq<int>) {
    forall i :: 0 <= i < |chain| ==> CompleteAfter(db, Last(frontier, chain[..i]), chain[i])
  }

  lemma PathGoesOn(db: Db, frontier: int, path: seq<int>, k: nat, n: int)
    requires Ahead(db, frontier, path) && k <= |path|
    requires NothingNext(db, Last(frontier, path))
    requires IsNext(db, Last(frontier, path[..k]), n)
    ensures k < |path| && path[k] == n
  {
    assert path[..|path|] == path;
    if k < |path| {
      assert IsNext(db, Last(frontier, path[..k]), path[k]);
    }
  }

  lemma LinkedPrefix(db: Db, frontier: int, chain: seq<int>, k: nat)
    requires LinkedFrom(db, frontier, chain) && k <= |chain|
    ensures LinkedFrom(db, frontier, chain[..k])
  {
    forall i | 0 <= i < k ensures CompleteAfter(db, Last(frontier, chain[..k][..i]), chain[..k][i]) {
      assert chain[..k][..i] == chain[..i];
    }
  }

  lemma NextByLink(db: Db, f: int, n: int)
    requires OneSuccessor(db) && CompleteAfter(db, f, n)
    ensures IsNext(db, f, n)
  {
    assert n in WithPrev(db, f);
  }

  /** With one successor each, every such chain is a beginning of a path that cannot go on. */
  lemma {:induction false} ChainIsPrefix(db: Db, frontier: int, path: seq<int>, chain: seq<int>)
    requires OneSuccessor(db) && LinkedFrom(db, frontier, chain)
    requires Ahead(db, frontier, path) && NothingNext(db, Last(frontier, path))
    ensures chain <= path
  {
    if chain != [] {
      var k := |chain| - 1;
      var before := chain[..k];
      LinkedPrefix(db, frontier, chain, k);
      ChainIsPrefix(db, frontier, path, before);
      assert path[..k] == before;
      NextByLink(db, Last(frontier, before), chain[k]);
      PathGoesOn(db, frontier, path, k, chain[k]);
      assert chain == before + [chain[k]];
    }
  }

  /** Where rounds without interference lead from `s`. */
  ghost predicate TipReached(prevOf: int -> int, s: State, path: seq<int>) {
    && CanExec(prevOf, s, Rounds(path))
    && Exec(s, Rounds(path)) == s.(db := MarkPath(s.db, path), frontier := Last(s.frontier, path))
    && (forall n :: !Enabled(prevOf, Exec(s, Rounds(path)), FindNext(n)))
    && LinkedFrom(s.db, s.frontier, path)
    && (OneSuccessor(s.db) ==> forall chain :: LinkedFrom(s.db, s.frontier, chain) ==> chain <= path)
  }

  lemma ReachesTipFrom(prevOf: int -> int, s: State) returns (path: seq<int>)
    requires LinksDown(s.db) && s.seqStep == Idle
    ensures TipReached(prevOf, s, path)
  {
    path := LongestPath(s.db, s.frontier);
    RoundsMove(prevOf, s, path);
    Stuck(prevOf, s, path);
    AheadLinked(s.db, s.frontier, path);
    if OneSuccessor(s.db) {
      forall chain | LinkedFrom(s.db, s.frontier, chain) ensures chain <= path {
        ChainIsPrefix(s.db, s.frontier, path, chain);
      }
    }
  }

  lemma AheadLinked(db: Db, frontier: int, path: seq<int>)
    requires Ahead(db, frontier, path)
    ensures LinkedFrom(db, frontier, path)
  {
    forall i | 0 <= i < |path| ensures CompleteAfter(db, Last(frontier, path[..i]), path[i]) {
      assert IsNext(db, Last(frontier, path[..i]), path[i]);
    }
  }

  lemma ReachableLinks(prevOf: int -> int, states: seq<State>, actions: seq<Action>, i: nat)
    requires Ascending(prevOf) && Run(prevOf, states, actions) && i < |states|
    ensures LinksDown(states[i].db)
  {
    var known := RunSequenced(prevOf, states, actions, i);
    forall n | n in states[i].db.pulses ensures states[i].db.pulses[n].prev < n {
      assert states[i].db.pulses[n].prev == prevOf(n);
    }
  }

  /**
   In every reachable state with an idle sequencer, rounds without
   interference take the frontier along a prev-linked chain of complete pulses,
   with unique successors the longest one, and mark each of them; then no
   round moves on.
   */
  lemma ReachesTip(prevOf: int -> int, states: seq<State>, actions: seq<Action>, i: nat)
    returns (path: seq<int>)
    requires Ascending(prevOf) && Run(prevOf, states, actions) && i < |states| && states[i].seqStep == Idle
    ensures TipReached(prevOf, states[i], path)
  {
    ReachableLinks(prevOf, states, actions, i);
    path := ReachesTipFrom(prevOf, states[i]);
  }

  lemma Stuck(prevOf: int -> int, s: State, path: seq<int>)
    requires NothingNext(s.db, Last(s.frontier, path))
    ensures var after := s.(db := MarkPath(s.db, path), frontier := Last(s.frontier, path));
      forall n :: !Enabled(prevOf, after, FindNext(n))
  {
    MarkPathKeeps(s.db, path);
    var after := s.(db := MarkPath(s.db, path), frontier := Last(s.frontier, path));
    forall n ensures !Enabled(prevOf, after, FindNext(n)) {
      assert !IsNext(s.db, Last(s.frontier, path), n);
    }
  }
}
