/**
 Does the controller notice that a pulse is complete?  The register must then
 hold, under one key, every jet that is stored for the pulse.
 */
module Tracking {
  import opened Tables
  import opened Pipeline
  import JetTree

  /** The one key under which the platform delivers each pulse. */
  type Keys = int -> PulseKey

  ghost predicate ProperKeys(keyOf: Keys) {
    forall n :: keyOf(n).no == n
  }

  ghost predicate Delivers(keyOf: Keys, a: Action) {
    a.Receive? ==> a.task.key == keyOf(a.task.key.no)
  }

  /** A restart registers a pulse under its delivered key exactly if these are zero. */
  predicate Plain(key: PulseKey) {
    key.epoch == 0 && key.timestamp == 0
  }

  /**
   What a pulse's register entry has gone through: the jets stored when the
   entry was last reset by a restart or by cleaning, those of them the reset
   put back, and the jets notified since.
   */
  datatype History = History(stored: set<string>, restored: set<string>, notified: set<string>)

  function Recall(h: History, s: State, a: Action, key: PulseKey): History {
    var jets := StoredJets(s.db, key.no);
    match a
    case Restart(_) => History(jets, if Plain(key) then jets else {}, {})
    case Clean(k) => if k == key then History(jets, {}, {}) else h
    case Notify(id) =>
      if id in s.tasks && s.tasks[id].key == key then h.(notified := h.notified + {s.tasks[id].jet}) else h
    case _ => h
  }

  /** The history of the entry under `key` up to the i-th state of a run. */
  ghost function HistoryAt(states: seq<State>, actions: seq<Action>, key: PulseKey, i: nat): History
    requires i <= |actions| && i <= |states|
  {
    if i == 0 then History({}, {}, {})
    else Recall(HistoryAt(states, actions, key, i - 1), states[i - 1], actions[i - 1], key)
  }

  // ---------------------------------------------------------------------
  // What every step keeps
  // ---------------------------------------------------------------------

  ghost predicate Keyed(keyOf: Keys, s: State) {
    TasksKeyed(keyOf, s) && RowsKeyed(keyOf, s.db)
  }

  ghost predicate TasksKeyed(keyOf: Keys, s: State) {
    forall id :: id in s.tasks ==> s.tasks[id].key == keyOf(s.tasks[id].key.no)
  }

  ghost predicate RowsKeyed(keyOf: Keys, db: Db) {
    && (forall n :: n in db.pulses ==> db.pulses[n].next == keyOf(n).next && db.pulses[n].prev == keyOf(n).prev)
    && (forall k :: k in db.drops ==> k.pulse in db.pulses)
  }

  /** Whatever is about to be erased belongs to a pulse already complete. */
  ghost predicate ErasingComplete(s: State) {
    forall k :: k in s.erasing ==> Finished(s.db, k.no)
  }

  predicate Finished(db: Db, n: int) {
    n in db.pulses && db.pulses[n].complete
  }

  function Entry(r: Register, key: PulseKey): set<string> {
    if key in r then r[key] else {}
  }

  function InFlight(tasks: map<nat, Task>, key: PulseKey): set<string> {
    set id | id in tasks && tasks[id].key == key :: tasks[id].jet
  }

  /** Every stored jet was there at the last reset, is notified or is in flight. */
  ghost predicate Accounted(s: State, key: PulseKey, h: History) {
    && h.stored <= StoredJets(s.db, key.no) && h.notified <= StoredJets(s.db, key.no)
    && StoredJets(s.db, key.no) <= h.stored + h.notified + InFlight(s.tasks, key)
  }

  ghost predicate Recorded(s: State, key: PulseKey, h: History) {
    !Finished(s.db, key.no) ==> Entry(s.register, key) == h.restored + h.notified
  }

  lemma StepTasksKeyed(prevOf: int -> int, keyOf: Keys, s: State, a: Action)
    requires TasksKeyed(keyOf, s) && Enabled(prevOf, s, a) && Delivers(keyOf, a)
    ensures TasksKeyed(keyOf, Apply(s, a))
  {
  }

  lemma StoreDropKeyed(keyOf: Keys, db: Db, t: Task)
    requires RowsKeyed(keyOf, db)
    ensures RowsKeyed(keyOf, StoreTaskDrop(db, t).db)
  {
    DropEffect(db, DropKey(t.key.no, t.jet), t.drop, t.records, t.key.no);
  }

  lemma StepRowsKeyed(prevOf: int -> int, keyOf: Keys, s: State, a: Action)
    requires ProperKeys(keyOf) && Keyed(keyOf, s) && Enabled(prevOf, s, a)
    ensures RowsKeyed(keyOf, Apply(s, a).db)
  {
    if a.StoreDrop? {
      StoreDropKeyed(keyOf, s.db, s.tasks[a.id]);
    }
  }

  lemma StepKeyed(prevOf: int -> int, keyOf: Keys, s: State, a: Action)
    requires ProperKeys(keyOf) && Keyed(keyOf, s) && Enabled(prevOf, s, a) && Delivers(keyOf, a)
    ensures Keyed(keyOf, Apply(s, a))
  {
    StepTasksKeyed(prevOf, keyOf, s, a);
    StepRowsKeyed(prevOf, keyOf, s, a);
  }

  lemma StaysFinished(prevOf: int -> int, s: State, a: Action, n: int)
    requires Enabled(prevOf, s, a) && Finished(s.db, n)
    ensures Finished(Apply(s, a).db, n)
  {
    StepGrows(prevOf, s, a);
    assert RowGrows(s.db.pulses[n], Apply(s, a).db.pulses[n]);
  }

  lemma StepErasing(prevOf: int -> int, s: State, a: Action)
    requires ErasingComplete(s) && Enabled(prevOf, s, a)
    ensures ErasingComplete(Apply(s, a))
  {
    forall k | k in Apply(s, a).erasing ensures Finished(Apply(s, a).db, k.no) {
      if k in s.erasing {
        StaysFinished(prevOf, s, a, k.no);
      }
    }
  }

  /** The entry a restart leaves under a delivered key. */
  lemma RestartEntry(keyOf: Keys, s: State, n: int)
    requires ProperKeys(keyOf) && Keyed(keyOf, s) && !Finished(s.db, n)
    ensures Entry(RestartRegister(s.db), keyOf(n)) == if Plain(keyOf(n)) then StoredJets(s.db, n) else {}
  {
    var r := RestartRegister(s.db);
    if n in s.db.pulses {
      assert RestartKey(s.db, n) in r;
      assert Plain(keyOf(n)) ==> RestartKey(s.db, n) == keyOf(n);
    } else {
      assert StoredJets(s.db, n) == {};
    }
  }

  /** Only a reset or a notification touches the entry of an unfinished pulse. */
  lemma StepRecorded(prevOf: int -> int, keyOf: Keys, s: State, a: Action, n: int, h: History)
    requires ProperKeys(keyOf) && Keyed(keyOf, s) && ErasingComplete(s) && Enabled(prevOf, s, a)
    requires Recorded(s, keyOf(n), h)
    ensures Recorded(Apply(s, a), keyOf(n), Recall(h, s, a, keyOf(n)))
  {
    if !Finished(Apply(s, a).db, n) {
      if Finished(s.db, n) {
        StaysFinished(prevOf, s, a, n);
      } else if a.Restart? {
        RestartEntry(keyOf, s, n);
      }
    }
  }

  /** A stored drop is in flight until its notification. */
  lemma StoredInFlight(prevOf: int -> int, s: State, a: Action, key: PulseKey, jet: string)
    requires Enabled(prevOf, s, a) && a.StoreDrop? && jet in StoredJets(Apply(s, a).db, key.no)
    requires s.tasks[a.id].key.no == key.no ==> s.tasks[a.id].key == key
    ensures jet in StoredJets(s.db, key.no) || jet in InFlight(Apply(s, a).tasks, key)
  {
    var t := s.tasks[a.id];
    DropEffect(s.db, DropKey(t.key.no, t.jet), t.drop, t.records, t.key.no);
    if jet !in StoredJets(s.db, key.no) {
      assert DropKey(key.no, jet) in Apply(s, a).db.drops && DropKey(key.no, jet) !in s.db.drops;
      var after := Apply(s, a).tasks;
      assert after[a.id].key == key && after[a.id].jet == jet;
    }
  }

  /** A jet leaves flight only by its notification or by a restart. */
  lemma LeavesFlight(prevOf: int -> int, s: State, a: Action, key: PulseKey, jet: string)
    requires Enabled(prevOf, s, a) && !a.Restart? && jet in InFlight(s.tasks, key)
    ensures jet in InFlight(Apply(s, a).tasks, key)
      || (a.Notify? && s.tasks[a.id].key == key && s.tasks[a.id].jet == jet)
  {
    var id :| id in s.tasks && s.tasks[id].key == key && s.tasks[id].jet == jet;
    var after := Apply(s, a).tasks;
    if !(a.Notify? && a.id == id) {
      assert id in after && after[id].key == key && after[id].jet == jet;
    }
  }

  lemma NewJets(prevOf: int -> int, s: State, a: Action, n: int)
    requires Enabled(prevOf, s, a) && !a.StoreDrop?
    ensures StoredJets(Apply(s, a).db, n) == StoredJets(s.db, n)
  {
  }

  lemma StepUpperBound(prevOf: int -> int, keyOf: Keys, s: State, a: Action, n: int, h: History)
    requires ProperKeys(keyOf) && TasksKeyed(keyOf, s) && Enabled(prevOf, s, a) && !a.Restart?
    requires Accounted(s, keyOf(n), h)
    ensures var h' := Recall(h, s, a, keyOf(n));
      StoredJets(Apply(s, a).db, n) <= h'.stored + h'.notified + InFlight(Apply(s, a).tasks, keyOf(n))
  {
    var key, h' := keyOf(n), Recall(h, s, a, keyOf(n));
    forall jet | jet in StoredJets(Apply(s, a).db, n)
      ensures jet in h'.stored + h'.notified + InFlight(Apply(s, a).tasks, key)
    {
      if a.StoreDrop? {
        StoredInFlight(prevOf, s, a, key, jet);
      } else {
        NewJets(prevOf, s, a, n);
      }
      if jet in InFlight(s.tasks, key) {
        LeavesFlight(prevOf, s, a, key, jet);
      }
    }
  }

  lemma StepAccounted(prevOf: int -> int, keyOf: Keys, s: State, a: Action, n: int, h: History)
    requires ProperKeys(keyOf) && TasksKeyed(keyOf, s) && TasksSound(prevOf, s) && Enabled(prevOf, s, a)
    requires Accounted(s, keyOf(n), h)
    ensures Accounted(Apply(s, a), keyOf(n), Recall(h, s, a, keyOf(n)))
  {
    StepGrows(prevOf, s, a);
    JetsGrow(s.db, Apply(s, a).db, n);
    if a.Notify? {
      assert TaskSound(prevOf, s.db, s.tasks[a.id]);
    }
    if !a.Restart? {
      StepUpperBound(prevOf, keyOf, s, a, n, h);
    }
  }

  ghost predicate Explained(keyOf: Keys, s: State, n: int, h: History) {
    Keyed(keyOf, s) && ErasingComplete(s) && Recorded(s, keyOf(n), h) && Accounted(s, keyOf(n), h)
  }

  lemma {:induction false} RunExplained(
    prevOf: int -> int, keyOf: Keys, states: seq<State>, actions: seq<Action>, i: nat, n: int)
    requires ProperKeys(keyOf) && Run(prevOf, states, actions) && i < |states|
    requires forall a :: a in actions ==> Delivers(keyOf, a)
    ensures Explained(keyOf, states[i], n, HistoryAt(states, actions, keyOf(n), i))
  {
    if i > 0 {
      RunExplained(prevOf, keyOf, states, actions, i - 1, n);
      RunSound(prevOf, states, actions, i - 1);
      var s, a, h := states[i - 1], actions[i - 1], HistoryAt(states, actions, keyOf(n), i - 1);
      assert a in actions;
      StepKeyed(prevOf, keyOf, s, a);
      StepErasing(prevOf, s, a);
      StepRecorded(prevOf, keyOf, s, a, n, h);
      StepAccounted(prevOf, keyOf, s, a, n, h);
    }
  }

  // ---------------------------------------------------------------------
  // When the register entry is exact
  // ---------------------------------------------------------------------

  /** No drop of the pulse in flight, and the pulse has stored drops but is not complete. */
  ghost predicate Settled(s: State, key: PulseKey) {
    && InFlight(s.tasks, key) == {}
    && key.no in s.db.pulses && !s.db.pulses[key.no].complete && StoredJets(s.db, key.no) != {}
  }

  ghost predicate Exact(s: State, key: PulseKey) {
    key in s.register && s.register[key] == StoredJets(s.db, key.no)
  }

  lemma SettledExact(keyOf: Keys, s: State, n: int, h: History)
    requires ProperKeys(keyOf) && Explained(keyOf, s, n, h) && Registered(s.db, s.register) && Settled(s, keyOf(n))
    ensures Exact(s, keyOf(n)) <==> h.stored <= h.restored + h.notified
  {
    var key := keyOf(n);
    assert StoredJets(s.db, n) == h.stored + h.notified;
    assert Entry(s.register, key) == h.restored + h.notified;
    assert Entry(s.register, key) <= StoredJets(s.db, n);
  }

  /**
   In every run, with restarts and cleaning anywhere, once no drop of a pulse
   is in flight: its entry is the set of stored jets exactly when each jet stored at the
   entry's last reset was put back by it or has been notified since.
   */
  lemma RegisterIsExact(prevOf: int -> int, keyOf: Keys, states: seq<State>, actions: seq<Action>, i: nat, n: int)
    requires ProperKeys(keyOf) && Run(prevOf, states, actions) && i < |states|
    requires forall a :: a in actions ==> Delivers(keyOf, a)
    requires Settled(states[i], keyOf(n))
    ensures var h := HistoryAt(states, actions, keyOf(n), i);
      Exact(states[i], keyOf(n)) <==> h.stored <= h.restored + h.notified
  {
    RunExplained(prevOf, keyOf, states, actions, i, n);
    RunSound(prevOf, states, actions, i);
    SettledExact(keyOf, states[i], n, HistoryAt(states, actions, keyOf(n), i));
  }

  lemma {:induction false} HistoryUncleaned(states: seq<State>, actions: seq<Action>, key: PulseKey, i: nat)
    requires i <= |actions| && i <= |states| && Clean(key) !in actions
    ensures var h := HistoryAt(states, actions, key, i); h.restored == if Plain(key) then h.stored else {}
  {
    if i > 0 {
      HistoryUncleaned(states, actions, key, i - 1);
      assert actions[i - 1] in actions;
    }
  }

  lemma {:induction false} HistoryUnreset(states: seq<State>, actions: seq<Action>, key: PulseKey, i: nat)
    requires i <= |actions| && i <= |states| && Clean(key) !in actions
    requires forall a :: a in actions ==> !a.Restart?
    ensures HistoryAt(states, actions, key, i).stored == {}
  {
    if i > 0 {
      HistoryUnreset(states, actions, key, i - 1);
      assert actions[i - 1] in actions;
    }
  }

  /**
   For a pulse whose entry is never cleaned: exact if and only if its epoch
   and timestamp are zero, or every jet stored at the last restart has been
   notified since.  Other pulses and their keys play no part.
   */
  lemma UncleanedIsExact(prevOf: int -> int, keyOf: Keys, states: seq<State>, actions: seq<Action>, i: nat, n: int)
    requires ProperKeys(keyOf) && Run(prevOf, states, actions) && i < |states|
    requires forall a :: a in actions ==> Delivers(keyOf, a)
    requires Settled(states[i], keyOf(n)) && Clean(keyOf(n)) !in actions
    ensures var h := HistoryAt(states, actions, keyOf(n), i);
      Exact(states[i], keyOf(n)) <==> Plain(keyOf(n)) || h.stored <= h.notified
    ensures (forall a :: a in actions ==> !a.Restart?) ==> Exact(states[i], keyOf(n))
  {
    RegisterIsExact(prevOf, keyOf, states, actions, i, n);
    HistoryUncleaned(states, actions, keyOf(n), i);
    if forall a :: a in actions ==> !a.Restart? {
      HistoryUnreset(states, actions, keyOf(n), i);
    }
  }

  // ---------------------------------------------------------------------
  // A restart in between
  // ---------------------------------------------------------------------

  function Key(): PulseKey { PulseKey(10, 1, 5, 11, 9) }

  function Half(jet: string): Task { Task(Key(), jet, Drop("", 0), [], Received) }

  function AfterFirst(): State {
    State(Db(map[10 := Pulse(9, 11, false, false, 5, 1, 0)], map[DropKey(10, "0") := Drop("", 0)], map[]),
          map[Key() := {"0"}], 0, map[], map[], {}, Idle)
  }

  function AfterRestart(): State {
    AfterFirst().(register := map[PulseKey(10, 0, 0, 11, 9) := {"0"}])
  }

  function AfterSecond(): State {
    State(Db(map[10 := Pulse(9, 11, false, false, 5, 2, 0)],
             map[DropKey(10, "0") := Drop("", 0), DropKey(10, "1") := Drop("", 0)], map[]),
          map[PulseKey(10, 0, 0, 11, 9) := {"0"}, Key() := {"1"}], 0, map[], map[], {}, Idle)
  }

  ghost predicate Steps(prevOf: int -> int, states: seq<State>, actions: seq<Action>) {
    && |states| == |actions| + 1
    && forall i :: 0 <= i < |actions| ==>
         Enabled(prevOf, states[i], actions[i]) && states[i + 1] == Apply(states[i], actions[i])
  }

  lemma StepsConcat(prevOf: int -> int, a: seq<State>, x: seq<Action>, b: seq<State>, y: seq<Action>)
    returns (states: seq<State>, actions: seq<Action>)
    requires Steps(prevOf, a, x) && Steps(prevOf, b, y) && a[|x|] == b[0]
    ensures Steps(prevOf, states, actions) && states[0] == a[0] && states[|actions|] == b[|y|]
  {
    states, actions := a[..|x|] + b, x + y;
    forall i | 0 <= i < |actions|
      ensures Enabled(prevOf, states[i], actions[i]) && states[i + 1] == Apply(states[i], actions[i])
    {
      if i < |x| {
        assert states[i] == a[i] && states[i + 1] == a[i + 1];
      } else {
        assert states[i] == b[i - |x|] && states[i + 1] == b[i - |x| + 1];
      }
    }
  }

  /** A worker takes one jet drop all the way to the register. */
  lemma Process(prevOf: int -> int, s: State, jet: string) returns (states: seq<State>, actions: seq<Action>)
    requires prevOf(10) == 9 && JetTree.Binary(jet) && s.tasks == map[]
    ensures Steps(prevOf, states, actions) && states[0] == s
    ensures states[|actions|] == s.(
      db := SaveJetDropData(SavePulse(s.db, 10, TaskPulse(Half(jet))), DropKey(10, jet), Drop("", 0), [], 10).db,
      register := SetJetDropData(s.register, Key(), jet))
  {
    var t := Half(jet);
    var s1 := Apply(s, Receive(0, t));
    var s2 := Apply(s1, StorePulse(0));
    var s3 := Apply(s2, StoreDrop(0));
    assert s3.tasks[0].stage == DropStored;
    var s4 := Apply(s3, Notify(0));
    assert s4.tasks == map[];
    states, actions := [s, s1, s2, s3, s4], [Receive(0, t), StorePulse(0), StoreDrop(0), Notify(0)];
  }

  lemma FirstHalf()
    ensures SaveJetDropData(
      SavePulse(Start().db, 10, TaskPulse(Half("0"))), DropKey(10, "0"), Drop("", 0), [], 10).db == AfterFirst().db
    ensures SetJetDropData(Start().register, Key(), "0") == AfterFirst().register
  {
    assert {} + {"0"} == {"0"};
  }

  lemma SecondHalf()
    ensures SaveJetDropData(
      SavePulse(AfterRestart().db, 10, TaskPulse(Half("1"))), DropKey(10, "1"), Drop("", 0), [], 10).db
        == AfterSecond().db
    ensures SetJetDropData(AfterRestart().register, Key(), "1") == AfterSecond().register
  {
    assert {} + {"1"} == {"1"} && Key() != PulseKey(10, 0, 0, 11, 9);
    assert DropKey(10, "1") != DropKey(10, "0");
    assert AfterRestart().db.drops[DropKey(10, "1") := Drop("", 0)] == AfterSecond().db.drops;
  }

  lemma RestartBetween(prevOf: int -> int)
    ensures Enabled(prevOf, AfterFirst(), Restart(0)) && Apply(AfterFirst(), Restart(0)) == AfterRestart()
  {
    var db := AfterFirst().db;
    assert SequentialPulses(db) == {};
    assert StoredJets(db, 10) == {"0"} by {
      assert DropKey(10, "0") in db.drops;
    }
    assert RestartKey(db, 10) == PulseKey(10, 0, 0, 11, 9);
    assert RestartRegister(db) == map[PulseKey(10, 0, 0, 11, 9) := {"0"}];
  }

  /** Nothing in flight, tiling drops stored, no entry of the register complete. */
  ghost predicate Unnoticed(s: State, n: int) {
    && s.tasks == map[] && n in s.db.pulses && !s.db.pulses[n].complete
    && JetTree.Tiles(StoredJets(s.db, n))
    && forall k :: k in s.register ==> !JetTree.Tiles(s.register[k])
  }

  /** Entries that hold one half each are not complete. */
  lemma HalvesTile(s: State, n: int)
    requires s.tasks == map[] && n in s.db.pulses && !s.db.pulses[n].complete
    requires StoredJets(s.db, n) == {"0", "1"}
    requires forall k :: k in s.register ==> s.register[k] == {"0"} || s.register[k] == {"1"}
    ensures Unnoticed(s, n)
  {
    PairTiles();
    HalfDoesNotTile("0");
    HalfDoesNotTile("1");
  }

  lemma PairTiles()
    ensures JetTree.Tiles({"0", "1"})
  {
    var d := {"0", "1"};
    forall j, i | j in d && 1 <= i <= |j| ensures JetTree.HasUnder(d, JetTree.InvertLast(j[..i])) {
      assert j[..i] == j;
      var x := JetTree.InvertLast(j);
      assert x == "0" || x == "1";
      assert x in d && x <= x;
    }
  }

  lemma HalfDoesNotTile(jet: string)
    requires |jet| == 1
    ensures !JetTree.Tiles({jet})
  {
    assert jet[..1] == jet;
    assert !JetTree.HasUnder({jet}, JetTree.InvertLast(jet));
    assert !JetTree.JetInhabited({jet}, jet);
  }

  lemma UpToRestart(prevOf: int -> int) returns (states: seq<State>, actions: seq<Action>)
    requires prevOf(10) == 9
    ensures Steps(prevOf, states, actions) && states[0] == Start() && states[|actions|] == AfterRestart()
  {
    var a, x := Process(prevOf, Start(), "0");
    FirstHalf();
    assert a[|x|] == AfterFirst();
    RestartBetween(prevOf);
    states, actions := StepsConcat(prevOf, a, x, [AfterFirst(), AfterRestart()], [Restart(0)]);
  }

  lemma FromRestart(prevOf: int -> int) returns (states: seq<State>, actions: seq<Action>)
    requires prevOf(10) == 9
    ensures Steps(prevOf, states, actions) && states[0] == AfterRestart() && states[|actions|] == AfterSecond()
  {
    states, actions := Process(prevOf, AfterRestart(), "1");
    SecondHalf();
  }

  /**
   With a restart between the two halves of a pulse whose key is not plain,
   both jet drops are stored and tile the tree, nothing is in flight, and yet
   no register entry is complete: the pulse has to be loaded again.
   */
  lemma RestartSplitsRegister(prevOf: int -> int) returns (states: seq<State>, actions: seq<Action>)
    requires prevOf(10) == 9
    ensures Run(prevOf, states, actions) && Unnoticed(states[|actions|], 10)
  {
    var a, x := UpToRestart(prevOf);
    var b, y := FromRestart(prevOf);
    states, actions := StepsConcat(prevOf, a, x, b, y);
    HalvesTile(AfterSecond(), 10);
  }
}
