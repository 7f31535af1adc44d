/**
 The controller's methods as sequences of atomic actions of the pipeline, in
 whatever order a hash map is iterated.
 */
module ControllerActions {
  import opened Common
  import T = Tables
  import P = Pipeline
  import C = Controller
  import Sequencer
  import JetTree

  // ---------------------------------------------------------------------
  // The maintainer
  // ---------------------------------------------------------------------

  /** What a pass does with one entry of its copy of the register. */
  function EntryActions(db: T.Db, copy: P.Register, k: P.PulseKey): seq<P.Action> {
    if k in copy && JetTree.Tiles(copy[k]) then
      [P.Complete(k)] + if k.no in db.pulses then [P.Erase(k)] else []
    else [P.PassOver(k)]
  }

  function PassActions(db: T.Db, copy: P.Register, order: seq<P.PulseKey>): seq<P.Action> {
    if order == [] then [P.Snapshot]
    else PassActions(db, copy, order[..|order| - 1]) + EntryActions(db, copy, order[|order| - 1])
  }

  /** The state when the pass has gone over the entries of `done`. */
  ghost function Midway(s: P.State, done: set<P.PulseKey>): P.State {
    var finished := C.Finished(s.register, s.db) * done;
    s.(db := s.db.(pulses := C.MarkAll(s.db.pulses, finished)),
       register := s.register - finished, scan := s.register - done)
  }

  lemma FinishEntry(prevOf: int -> int, s: P.State, done: set<P.PulseKey>, k: P.PulseKey)
    requires s.erasing == {} && k in C.Finished(s.register, s.db) && k !in done
    ensures P.CanExec(prevOf, Midway(s, done), [P.Complete(k), P.Erase(k)])
    ensures P.Exec(Midway(s, done), [P.Complete(k), P.Erase(k)]) == Midway(s, done + {k})
  {
    var mid := Midway(s, done);
    var finished := C.Finished(s.register, s.db) * done;
    P.ExecOne(prevOf, mid, [], P.Complete(k));
    P.ExecOne(prevOf, mid, [P.Complete(k)], P.Erase(k));
    assert [] + [P.Complete(k)] == [P.Complete(k)];
    assert [P.Complete(k)] + [P.Erase(k)] == [P.Complete(k), P.Erase(k)];
    assert C.Finished(s.register, s.db) * (done + {k}) == finished + {k};
    C.MarkOne(s.db.pulses, finished, k);
    assert (s.register - finished) - {k} == s.register - (finished + {k});
    assert (s.register - done) - {k} == s.register - (done + {k});
  }

  lemma ExecSingle(prevOf: int -> int, s: P.State, a: P.Action)
    ensures P.Exec(s, [a]) == P.Apply(s, a)
    ensures P.CanExec(prevOf, s, [a]) <==> P.Enabled(prevOf, s, a)
  {
    P.ExecOne(prevOf, s, [], a);
    assert [] + [a] == [a];
  }

  /** An entry that cannot be finished leaves only the pass's copy. */
  lemma LeaveEntry(s: P.State, done: set<P.PulseKey>, k: P.PulseKey)
    requires k !in C.Finished(s.register, s.db)
    ensures Midway(s, done + {k}) == Midway(s, done).(scan := Midway(s, done).scan - {k})
  {
    assert C.Finished(s.register, s.db) * (done + {k}) == C.Finished(s.register, s.db) * done;
    assert s.register - (done + {k}) == (s.register - done) - {k};
  }

  lemma MissingPulse(s: P.State, done: set<P.PulseKey>, k: P.PulseKey)
    requires s.erasing == {} && k.no !in s.db.pulses
    ensures P.Apply(Midway(s, done), P.Complete(k)) == Midway(s, done).(scan := Midway(s, done).scan - {k})
  {
    assert k.no !in Midway(s, done).db.pulses;
  }

  lemma EntryStep(prevOf: int -> int, s: P.State, done: set<P.PulseKey>, k: P.PulseKey)
    requires s.erasing == {} && k in s.register && k !in done
    ensures P.CanExec(prevOf, Midway(s, done), EntryActions(s.db, s.register, k))
    ensures P.Exec(Midway(s, done), EntryActions(s.db, s.register, k)) == Midway(s, done + {k})
  {
    var mid := Midway(s, done);
    if k in C.Finished(s.register, s.db) {
      FinishEntry(prevOf, s, done, k);
      assert [P.Complete(k)] + [P.Erase(k)] == [P.Complete(k), P.Erase(k)];
    } else {
      LeaveEntry(s, done, k);
      if JetTree.Tiles(s.register[k]) {
        assert [P.Complete(k)] + [] == [P.Complete(k)];
        ExecSingle(prevOf, mid, P.Complete(k));
        MissingPulse(s, done, k);
      } else {
        ExecSingle(prevOf, mid, P.PassOver(k));
      }
    }
  }

  function Elements(order: seq<P.PulseKey>): set<P.PulseKey> {
    set k | k in order
  }

  lemma {:induction false} PassPrefix(prevOf: int -> int, s: P.State, order: seq<P.PulseKey>)
    requires s.scan == map[] && s.erasing == {}
    requires NoDuplicates(order) && forall k :: k in order ==> k in s.register
    ensures P.CanExec(prevOf, s, PassActions(s.db, s.register, order))
    ensures P.Exec(s, PassActions(s.db, s.register, order)) == Midway(s, Elements(order))
  {
    if order == [] {
      assert Elements(order) == {};
    } else {
      var n := |order| - 1;
      var done, k := Elements(order[..n]), order[n];
      PassPrefix(prevOf, s, order[..n]);
      assert k !in done && done + {k} == Elements(order);
      EntryStep(prevOf, s, done, k);
      P.ExecConcat(prevOf, s, PassActions(s.db, s.register, order[..n]), EntryActions(s.db, s.register, k));
    }
  }

  /**
   A whole pass of CompletePulses, in any order of the entries, is a snapshot
   followed by Complete and Erase, or by PassOver, for each entry.
   */
  lemma PassIsActions(prevOf: int -> int, s: P.State, order: seq<P.PulseKey>)
    requires s.scan == map[] && s.erasing == {} && IsOrderOf(order, s.register.Keys)
    ensures var finished := C.Finished(s.register, s.db);
      && P.CanExec(prevOf, s, PassActions(s.db, s.register, order))
      && P.Exec(s, PassActions(s.db, s.register, order)) ==
           s.(db := s.db.(pulses := C.MarkAll(s.db.pulses, finished)), register := s.register - finished)
  {
    PassPrefix(prevOf, s, order);
    assert Elements(order) == s.register.Keys;
    assert C.Finished(s.register, s.db) * s.register.Keys == C.Finished(s.register, s.db);
    assert s.register - s.register.Keys == map[];
  }

  // ---------------------------------------------------------------------
  // Cleaning
  // ---------------------------------------------------------------------

  function CleanActions(frontier: int, order: seq<P.PulseKey>): seq<P.Action> {
    if order == [] then []
    else
      var n := |order| - 1;
      CleanActions(frontier, order[..n]) + if frontier > order[n].no then [P.Clean(order[n])] else []
  }

  function Cleaned(s: P.State, done: set<P.PulseKey>): P.State {
    s.(register := map k | k in s.register && (k.no >= s.frontier || k !in done) :: s.register[k])
  }

  lemma CleanOne(s: P.State, done: set<P.PulseKey>, k: P.PulseKey)
    ensures Cleaned(s, done + {k}) ==
      if s.frontier > k.no then P.Apply(Cleaned(s, done), P.Clean(k)) else Cleaned(s, done)
  {
    var before, after := Cleaned(s, done).register, Cleaned(s, done + {k}).register;
    if s.frontier > k.no {
      assert after == before - {k};
    } else {
      assert after == before;
    }
  }

  lemma {:induction false} CleanPrefix(prevOf: int -> int, s: P.State, order: seq<P.PulseKey>)
    ensures P.CanExec(prevOf, s, CleanActions(s.frontier, order))
    ensures P.Exec(s, CleanActions(s.frontier, order)) == Cleaned(s, Elements(order))
  {
    if order == [] {
      assert Cleaned(s, Elements(order)).register == s.register;
    } else {
      var n := |order| - 1;
      CleanPrefix(prevOf, s, order[..n]);
      var before := CleanActions(s.frontier, order[..n]);
      assert Elements(order[..n]) + {order[n]} == Elements(order);
      CleanOne(s, Elements(order[..n]), order[n]);
      if s.frontier > order[n].no {
        P.ExecOne(prevOf, s, before, P.Clean(order[n]));
      } else {
        assert before + [] == before;
      }
    }
  }

  /** CleanJetDropRegister, in any order of the entries, is one Clean per entry below the frontier. */
  lemma CleaningIsActions(prevOf: int -> int, s: P.State, order: seq<P.PulseKey>)
    requires IsOrderOf(order, s.register.Keys)
    ensures P.CanExec(prevOf, s, CleanActions(s.frontier, order))
    ensures P.Exec(s, CleanActions(s.frontier, order)) ==
      s.(register := map k | k in s.register && k.no >= s.frontier :: s.register[k])
  {
    CleanPrefix(prevOf, s, order);
    assert Cleaned(s, Elements(order)).register ==
      map k | k in s.register && k.no >= s.frontier :: s.register[k];
  }

  // ---------------------------------------------------------------------
  // The sequencer
  // ---------------------------------------------------------------------

  /** What one uninterrupted round of PulseSequence leaves of a state. */
  ghost predicate RoundResult(s: P.State, s': P.State, moved: bool) {
    if moved then
      && T.IsLeast(s'.frontier, T.WithPrev(s.db, s.frontier)) && s.db.pulses[s'.frontier].complete
      && s' == s.(db := T.SequencePulse(s.db, s'.frontier).db, frontier := s'.frontier)
    else
      && s' == s
      && forall n :: T.IsLeast(n, T.WithPrev(s.db, s.frontier)) ==> !s.db.pulses[n].complete
  }

  /**
   A round that moves is FindNext, Mark and Advance; a round does not move
   exactly when no FindNext is enabled.
   */
  lemma RoundIsActions(prevOf: int -> int, s: P.State, s': P.State, moved: bool)
    requires s.seqStep == P.Idle && RoundResult(s, s', moved)
    ensures moved ==>
      var round := Sequencer.Round(s'.frontier); P.CanExec(prevOf, s, round) && P.Exec(s, round) == s'
    ensures moved <==> exists n :: P.Enabled(prevOf, s, P.FindNext(n))
  {
    if moved {
      Sequencer.RoundMoves(prevOf, s, s'.frontier);
      assert P.Enabled(prevOf, s, P.FindNext(s'.frontier));
    }
  }
}
