/**
 The controller object: its methods, run without interruption.  That each is a
 sequence of atomic actions of the pipeline is shown in ControllerActions.
 */
module Controller {
  import opened Common
  import T = Tables
  import S = Storage
  import P = Pipeline
  import M = MissedData
  import JetTree

  // ---------------------------------------------------------------------
  // Reload requests
  // ---------------------------------------------------------------------

  /** One below the first pulse number of the platform. */
  const BEFORE_FIRST_PULSE := 65536

  /** A range asked of the extractor. */
  datatype Load = Load(from: int, to: int)

  /** There is no pulse 0: a range from there starts before the first pulse. */
  function LoadFrom(from: int): int {
    if from == 0 then BEFORE_FIRST_PULSE else from
  }

  /** The pool and the requests after asking for a range at a given time. */
  ghost predicate Asked(pool: seq<M.Missed>, loads: seq<Load>, pool': seq<M.Missed>, loads': seq<Load>,
                        now: int, from: int, to: int)
  {
    if M.Known(pool, LoadFrom(from), to) then pool' == pool && loads' == loads
    else pool' == pool + [M.Missed(now, LoadFrom(from), to)] && loads' == loads + [Load(LoadFrom(from), to)]
  }

  predicate ReloadOf(keys: set<P.PulseKey>, m: M.Missed) {
    exists k :: k in keys && m.from == LoadFrom(k.prev) && m.to == k.no
  }

  /** Each new entry of the pool is one request, for the range of one of the keys. */
  ghost predicate Requests(pool: seq<M.Missed>, loads: seq<Load>, pool': seq<M.Missed>, loads': seq<Load>,
                           keys: set<P.PulseKey>)
  {
    && pool <= pool' && loads <= loads' && |pool'| - |pool| == |loads'| - |loads|
    && (forall i :: |pool| <= i < |pool'| ==> ReloadOf(keys, pool'[i]))
    && (forall i :: |pool| <= i < |pool'| ==>
          loads'[|loads| + i - |pool|] == Load(pool'[i].from, pool'[i].to))
  }

  ghost predicate AllKnown(pool: seq<M.Missed>, keys: set<P.PulseKey>) {
    forall k :: k in keys ==> M.Covered(pool, if k.prev == 0 then 65536 else k.prev, k.no)
  }

  /** Keys whose jets tile, so whose pulses one pass marks complete. */
  ghost function Finished(r: P.Register, db: T.Db): set<P.PulseKey> {
    set k | k in r && JetTree.Tiles(r[k]) && k.no in db.pulses
  }

  /** Keys whose pulses one pass asks for again. */
  ghost function Unfinished(r: P.Register): set<P.PulseKey> {
    set k | k in r && !JetTree.Tiles(r[k])
  }

  lemma KnownStays(pool: seq<M.Missed>, pool': seq<M.Missed>, keys: set<P.PulseKey>)
    requires pool <= pool' && AllKnown(pool, keys)
    ensures AllKnown(pool', keys)
  {
    forall k | k in keys ensures M.Covered(pool', if k.prev == 0 then 65536 else k.prev, k.no) {
      var from := if k.prev == 0 then 65536 else k.prev;
      assert M.Covered(pool, from, k.no);
      var i :| 0 <= i < |pool| && pool[i].from <= from && k.no <= pool[i].to;
      assert pool'[i] == pool[i];
    }
  }

  /** One more key asked for. */
  lemma AskedRequests(
    pool: seq<M.Missed>, loads: seq<Load>, mid: seq<M.Missed>, midLoads: seq<Load>,
    pool': seq<M.Missed>, loads': seq<Load>, keys: set<P.PulseKey>, k: P.PulseKey, now: int)
    requires Requests(pool, loads, mid, midLoads, keys) && Asked(mid, midLoads, pool', loads', now, k.prev, k.no)
    requires k in keys
    ensures Requests(pool, loads, pool', loads', keys) && mid <= pool'
    ensures M.Covered(pool', if k.prev == 0 then 65536 else k.prev, k.no)
  {
    M.KnownIsCovered(pool', if k.prev == 0 then 65536 else k.prev, k.no);
    if !M.Known(mid, LoadFrom(k.prev), k.no) {
      assert M.Contains(pool'[|mid|], LoadFrom(k.prev), k.no);
      forall i | |pool| <= i < |pool'|
        ensures ReloadOf(keys, pool'[i]) && loads'[|loads| + i - |pool|] == Load(pool'[i].from, pool'[i].to)
      {
        assert i < |mid| ==> pool'[i] == mid[i] && loads'[|loads| + i - |pool|] == midLoads[|loads| + i - |pool|];
      }
    }
  }

  /** The range is remembered, and was asked for exactly if none remembered held it. */
  ghost predicate RangeRequested(pool: seq<M.Missed>, loads: seq<Load>, pool': seq<M.Missed>, loads': seq<Load>,
                                 from: int, to: int)
  {
    var start := if from == 0 then 65536 else from;
    && M.Covered(pool', start, to)
    && loads' == if M.Covered(pool, start, to) then loads else loads + [Load(start, to)]
  }

  /** The first stored pulse above the frontier; for platform version 1 the first complete one. */
  ghost predicate NextSaved(pulses: map<int, T.Pulse>, frontier: int, completedOnly: bool, n: int) {
    && n in pulses && frontier < n && (completedOnly ==> pulses[n].complete)
    && forall m :: m in pulses && frontier < m < n ==> completedOnly && !pulses[m].complete
  }

  /** The range from the frontier to the prev of the next saved pulse is requested, if there is one. */
  ghost predicate GapRequested(
    pulses: map<int, T.Pulse>, frontier: int, completedOnly: bool,
    pool: seq<M.Missed>, loads: seq<Load>, pool': seq<M.Missed>, loads': seq<Load>)
  {
    && (forall n :: NextSaved(pulses, frontier, completedOnly, n) ==>
          RangeRequested(pool, loads, pool', loads', frontier, pulses[n].prev))
    && ((forall n :: !NextSaved(pulses, frontier, completedOnly, n)) ==> pool' == pool && loads' == loads)
  }

  lemma LeastIsNext(db: T.Db, frontier: int, completedOnly: bool, n: int)
    ensures T.IsLeast(n, SavedAbove(db, frontier, completedOnly)) <==> NextSaved(db.pulses, frontier, completedOnly, n)
  {
    var saved := SavedAbove(db, frontier, completedOnly);
    if NextSaved(db.pulses, frontier, completedOnly, n) {
      assert n in saved;
    }
    if T.IsLeast(n, saved) {
      assert forall m :: m in db.pulses && frontier < m < n ==> m !in saved;
    }
  }

  lemma NothingSaved(db: T.Db, frontier: int, completedOnly: bool, pool: seq<M.Missed>, loads: seq<Load>)
    requires SavedAbove(db, frontier, completedOnly) == {}
    ensures GapRequested(db.pulses, frontier, completedOnly, pool, loads, pool, loads)
  {
    forall n ensures !NextSaved(db.pulses, frontier, completedOnly, n) {
      LeastIsNext(db, frontier, completedOnly, n);
    }
  }

  lemma LeastSaved(db: T.Db, frontier: int, completedOnly: bool, to: int,
                   pool: seq<M.Missed>, loads: seq<Load>, pool': seq<M.Missed>, loads': seq<Load>)
    requires T.IsLeast(to, SavedAbove(db, frontier, completedOnly))
    requires RangeRequested(pool, loads, pool', loads', frontier, db.pulses[to].prev)
    ensures GapRequested(db.pulses, frontier, completedOnly, pool, loads, pool', loads')
  {
    LeastIsNext(db, frontier, completedOnly, to);
    forall n | NextSaved(db.pulses, frontier, completedOnly, n) ensures n == to {
      LeastIsNext(db, frontier, completedOnly, n);
    }
  }

  /** Every missing pulse of the gap lies in the range that is remembered for it. */
  lemma GapCovered(pool: seq<M.Missed>, frontier: int, prev: int, missing: int)
    requires M.Covered(pool, if frontier == 0 then 65536 else frontier, prev)
    requires frontier < missing <= prev && 65536 < missing
    ensures exists i :: 0 <= i < |pool| && pool[i].from < missing <= pool[i].to
  {
    var i :| 0 <= i < |pool| && pool[i].from <= (if frontier == 0 then 65536 else frontier) && prev <= pool[i].to;
    assert pool[i].from < missing <= pool[i].to;
  }

  /** Candidates of the next saved pulse; for platform version 1 only complete ones. */
  function SavedAbove(db: T.Db, frontier: int, completedOnly: bool): set<int> {
    set n | n in db.pulses && n > frontier && (completedOnly ==> db.pulses[n].complete)
  }

  /** The pulse table after marking the pulses of `keys` complete. */
  ghost function MarkAll(pulses: map<int, T.Pulse>, keys: set<P.PulseKey>): map<int, T.Pulse> {
    map n | n in pulses ::
      if exists k :: k in keys && k.no == n then pulses[n].(complete := true) else pulses[n]
  }

  lemma MarkOne(pulses: map<int, T.Pulse>, keys: set<P.PulseKey>, k: P.PulseKey)
    requires k.no in pulses
    ensures var m := MarkAll(pulses, keys); m[k.no := m[k.no].(complete := true)] == MarkAll(pulses, keys + {k})
  {
    var a, b := MarkAll(pulses, keys), MarkAll(pulses, keys + {k});
    forall n | n in pulses ensures a[k.no := a[k.no].(complete := true)][n] == b[n] {
      if n == k.no {
        assert k in keys + {k} && k.no == n;
      } else {
        assert (exists x :: x in keys && x.no == n) <==> (exists x :: x in keys + {k} && x.no == n);
      }
    }
  }

  /** `register` and `frontier` are what the pipeline's restart action makes of `db`. */
  ghost predicate RestartedTo(db: T.Db, register: P.Register, frontier: int) {
    forall prevOf: int -> int, s: P.State :: s.db == db ==>
      && P.Enabled(prevOf, s, P.Restart(frontier))
      && P.Apply(s, P.Restart(frontier)) == P.State(db, register, frontier, map[], map[], {}, P.Idle)
  }

  class Controller {
    const storage: S.Storage
    const missed: M.MissedDataManager
    const platformVersion: int
    var register: P.Register
    var sequentialPulse: int
    var incompletePulseCounter: int
    var loads: seq<Load>  // ranges requested from the extractor so far

    constructor (storage: S.Storage, missed: M.MissedDataManager, platformVersion: int)
      ensures this.storage == storage && this.missed == missed && this.platformVersion == platformVersion
      ensures register == map[] && sequentialPulse == 0 && incompletePulseCounter == 0 && loads == []
    {
      this.storage, this.missed, this.platformVersion := storage, missed, platformVersion;
      register, sequentialPulse, incompletePulseCounter, loads := map[], 0, 0, [];
    }

    /** Ask for a range unless a request that contains it is remembered. */
    method ReloadData(now: int, from: int, to: int)
      requires missed.Valid()
      modifies this`loads, missed, missed.data
      ensures missed.Valid() && (missed.data == old(missed.data) || fresh(missed.data))
      ensures Asked(old(missed.Pool()), old(loads), missed.Pool(), loads, now, from, to)
      ensures RangeRequested(old(missed.Pool()), old(loads), missed.Pool(), loads, from, to)
    {
      var start := if from == 0 then BEFORE_FIRST_PULSE else from;
      M.KnownIsCovered(missed.Pool(), start, to);
      var added := missed.Add(now, start, to);
      if added {
        loads := loads + [Load(start, to)];
        assert missed.Pool()[|missed.Pool()| - 1] == M.Missed(now, start, to);
      }
    }

    method SetJetDropData(key: P.PulseKey, jet: string)
      modifies this`register
      ensures register == P.SetJetDropData(old(register), key, jet)
    {
      if key !in register {
        register := register[key := {}];
      }
      register := register[key := register[key] + {jet}];
    }

    /** The loop over one incomplete pulse's stored drops. */
    method RegisterPulse(key: P.PulseKey, jets: set<string>)
      modifies this`register
      ensures register == old(register)[key := jets]
    {
      register := register[key := {}];
      var todo := jets;
      ghost var done: set<string> := {};
      while todo != {}
        invariant jets == done + todo
        invariant register == old(register)[key := done]
      {
        var jet :| jet in todo;
        SetJetDropData(key, jet);
        done, todo := done + {jet}, todo - {jet};
      }
    }

    /** Registers every incomplete pulse with its stored jets, as a restart must. */
    method SetIncompletePulses()
      modifies this`register
      ensures register == old(register) + P.RestartRegister(storage.Tables())
    {
      var db := storage.Tables();
      var todo := set n | n in db.pulses && !db.pulses[n].complete;
      ghost var incomplete := todo;
      ghost var seen: set<int> := {};
      while todo != {}
        invariant incomplete == seen + todo
        invariant register == old(register) + Partial(db, seen)
      {
        SomeMember(todo);
        var n :| n in todo;
        RegisterPulse(P.RestartKey(db, n), T.StoredJets(db, n));
        PartialStep(db, seen, n);
        MergeUpdate(old(register), Partial(db, seen), P.RestartKey(db, n), T.StoredJets(db, n));
        seen, todo := seen + {n}, todo - {n};
      }
      PartialAll(db, seen);
    }

    method SetSeqPulse()
      modifies this`sequentialPulse
      ensures var seqs := T.SequentialPulses(storage.Tables());
        if seqs == {} then sequentialPulse == 0 else T.IsGreatest(sequentialPulse, seqs)
    {
      var seqs := T.SequentialPulses(storage.Tables());
      if seqs == {} {
        sequentialPulse := 0;
      } else {
        sequentialPulse := T.Greatest(seqs);
      }
    }

    /** A restart of a fresh controller is the pipeline's restart action. */
    method Start()
      requires register == map[]
      modifies this`register, this`sequentialPulse
      ensures RestartedTo(storage.Tables(), register, sequentialPulse)
    {
      SetIncompletePulses();
      SetSeqPulse();
      assert register == P.RestartRegister(storage.Tables());
    }

    /** One entry of a pass: complete and erase it, or ask for its range again. */
    method MaintainEntry(k: P.PulseKey, jets: set<string>, now: int) returns (verdict: JetTree.Verdict)
      requires missed.Valid()
      modifies this`register, this`loads, storage`pulses, missed, missed.data
      ensures missed.Valid() && (missed.data == old(missed.data) || fresh(missed.data))
      ensures verdict == JetTree.Complete <==> JetTree.Tiles(jets)
      ensures verdict == JetTree.Panics ==> "" in jets && |jets| > 1
      ensures if verdict == JetTree.Complete && k.no in old(storage.pulses)
        then register == old(register) - {k}
          && storage.pulses == old(storage.pulses)[k.no := old(storage.pulses)[k.no].(complete := true)]
        else register == old(register) && storage.pulses == old(storage.pulses)
      ensures if verdict == JetTree.Incomplete && platformVersion != 1
        then Asked(old(missed.Pool()), old(loads), missed.Pool(), loads, now, k.prev, k.no)
        else missed.Pool() == old(missed.Pool()) && loads == old(loads)
    {
      verdict := JetTree.PulseIsComplete(jets);
      if verdict == JetTree.Complete {
        var ok := storage.CompletePulse(k.no);
        if ok {
          register := register - {k};
        }
      } else if verdict == JetTree.Incomplete && platformVersion != 1 {
        ReloadData(now, k.prev, k.no);
      }
    }

    /**
     One pass of the maintainer: every tiling entry completes its pulse and
     leaves the register, and the range of every other entry is requested
     unless that was done recently.
     */
    method CompletePulses(clock: M.Clock) returns (panicked: bool)
      requires missed.Valid()
      modifies this`register, this`loads, storage`pulses, missed, missed.data
      ensures missed.Valid() && (missed.data == old(missed.data) || fresh(missed.data))
      ensures !panicked ==>
        var finished := Finished(old(register), old(storage.Tables()));
        && register == old(register) - finished
        && storage.pulses == MarkAll(old(storage.pulses), finished)
        && (platformVersion != 1 ==> AllKnown(missed.Pool(), Unfinished(old(register))))
      ensures Requests(old(missed.Pool()), old(loads), missed.Pool(), loads, Unfinished(old(register)))
      ensures platformVersion == 1 ==> missed.Pool() == old(missed.Pool())
      ensures panicked ==> exists k :: k in old(register) && "" in old(register)[k] && |old(register)[k]| > 1
    {
      var copy := register;
      ghost var db, pool, asked := storage.Tables(), missed.Pool(), loads;
      var todo := copy.Keys;
      var step := 0;
      ghost var done: set<P.PulseKey> := {};
      while todo != {}
        invariant todo <= copy.Keys && done == Finished(copy, db) - todo
        invariant register == copy - done
        invariant storage.pulses == MarkAll(db.pulses, done)
        invariant missed.Valid() && (missed.data == old(missed.data) || fresh(missed.data))
        invariant Requests(pool, asked, missed.Pool(), loads, Unfinished(copy))
        invariant platformVersion != 1 ==> AllKnown(missed.Pool(), Unfinished(copy) - todo)
        invariant platformVersion == 1 ==> missed.Pool() == pool
      {
        var k :| k in todo;
        ghost var mid, midLoads := missed.Pool(), loads;
        var verdict := MaintainEntry(k, copy[k], clock(step));
        if verdict == JetTree.Panics {
          return true;
        }
        if verdict == JetTree.Complete {
          if k.no in db.pulses {
            MarkOne(db.pulses, done, k);
            done := done + {k};
          }
        } else if platformVersion != 1 {
          AskedRequests(pool, asked, mid, midLoads, missed.Pool(), loads, Unfinished(copy), k, clock(step));
          KnownStays(mid, missed.Pool(), Unfinished(copy) - todo);
        }
        todo := todo - {k};
        step := step + 1;
      }
      return false;
    }

    /** For platform version 1: drop the entries below the frontier. */
    method CleanJetDropRegister()
      modifies this`register
      ensures register == map k | k in old(register) && k.no >= sequentialPulse :: old(register)[k]
    {
      var copy := register;
      var todo := copy.Keys;
      while todo != {}
        invariant todo <= copy.Keys
        invariant register == map k | k in copy && (k.no >= sequentialPulse || k in todo) :: copy[k]
      {
        var k :| k in todo;
        if sequentialPulse > k.no {
          register := register - {k};
        }
        todo := todo - {k};
      }
    }

    method EraseJetDropRegister(clock: M.Clock) returns (panicked: bool)
      requires missed.Valid()
      modifies this`register, this`loads, this`incompletePulseCounter, storage`pulses, missed, missed.data
      ensures missed.Valid()
      ensures !panicked ==>
        var finished := Finished(old(register), old(storage.Tables()));
        && storage.pulses == MarkAll(old(storage.pulses), finished)
        && register == (if platformVersion == 1 && old(incompletePulseCounter) == 1000
             then map k | k in old(register) - finished && k.no >= sequentialPulse :: old(register)[k]
             else old(register) - finished)
        && incompletePulseCounter == (if platformVersion != 1 then old(incompletePulseCounter)
             else if old(incompletePulseCounter) == 1000 then 1 else old(incompletePulseCounter) + 1)
        && (platformVersion != 1 ==> AllKnown(missed.Pool(), Unfinished(old(register))))
      ensures Requests(old(missed.Pool()), old(loads), missed.Pool(), loads, Unfinished(old(register)))
      ensures platformVersion == 1 ==> missed.Pool() == old(missed.Pool())
    {
      panicked := CompletePulses(clock);
      if panicked {
        return;
      }
      if platformVersion == 1 {
        if incompletePulseCounter == 1000 {
          CleanJetDropRegister();
          incompletePulseCounter := 0;
        }
        incompletePulseCounter := incompletePulseCounter + 1;
      }
    }

    /** No round: ask for the gap below the next saved pulse, if there is one. */
    method RequestGap(now: int)
      requires missed.Valid()
      modifies this`loads, missed, missed.data
      ensures missed.Valid()
      ensures GapRequested(storage.pulses, sequentialPulse, platformVersion == 1,
                           old(missed.Pool()), old(loads), missed.Pool(), loads)
    {
      var saved := SavedAbove(storage.Tables(), sequentialPulse, platformVersion == 1);
      ghost var pool, asked := missed.Pool(), loads;
      if saved == {} {
        NothingSaved(storage.Tables(), sequentialPulse, platformVersion == 1, pool, asked);
      } else {
        var to := T.Least(saved);
        ReloadData(now, sequentialPulse, storage.pulses[to].prev);
        LeastSaved(storage.Tables(), sequentialPulse, platformVersion == 1, to, pool, asked, missed.Pool(), loads);
      }
    }

    /**
     One round of the sequencer: it moves on exactly when the least pulse
     linked to the frontier is complete, and marks that pulse.  Otherwise it
     asks for the gap below the next saved pulse, if there is one.
     */
    method PulseSequence(now: int) returns (moved: bool)
      requires missed.Valid()
      modifies this`sequentialPulse, this`loads, storage`pulses, missed, missed.data
      ensures missed.Valid()
      ensures moved ==>
        && T.IsLeast(sequentialPulse, T.WithPrev(old(storage.Tables()), old(sequentialPulse)))
        && old(storage.pulses)[sequentialPulse].complete
        && storage.Tables() == T.SequencePulse(old(storage.Tables()), sequentialPulse).db
        && missed.Pool() == old(missed.Pool()) && loads == old(loads)
      ensures !moved ==>
        && sequentialPulse == old(sequentialPulse) && storage.Tables() == old(storage.Tables())
        && forall n :: T.IsLeast(n, T.WithPrev(storage.Tables(), sequentialPulse)) ==> !storage.pulses[n].complete
      ensures !moved ==>
        GapRequested(storage.pulses, sequentialPulse, platformVersion == 1,
                     old(missed.Pool()), old(loads), missed.Pool(), loads)
    {
      var next := T.WithPrev(storage.Tables(), sequentialPulse);
      if next != {} {
        var n := T.Least(next);
        if storage.pulses[n].complete {
          moved := storage.SequencePulse(n);
          sequentialPulse := n;
          return;
        }
      }
      RequestGap(now);
      return false;
    }
  }

  lemma MergeUpdate<K, V>(a: map<K, V>, b: map<K, V>, k: K, v: V)
    ensures (a + b)[k := v] == a + b[k := v]
  {
  }

  /** The restart register restricted to the pulses of `ns`. */
  ghost function Partial(db: T.Db, ns: set<int>): P.Register {
    map n | n in ns && n in db.pulses :: P.RestartKey(db, n) := T.StoredJets(db, n)
  }

  lemma PartialStep(db: T.Db, ns: set<int>, n: int)
    requires n in db.pulses
    ensures Partial(db, ns + {n}) == Partial(db, ns)[P.RestartKey(db, n) := T.StoredJets(db, n)]
  {
  }

  lemma PartialAll(db: T.Db, ns: set<int>)
    requires forall n :: n in ns <==> n in db.pulses && !db.pulses[n].complete
    ensures Partial(db, ns) == P.RestartRegister(db)
  {
  }
}
