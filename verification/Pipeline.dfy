/**
 Processor workers, the pulse maintainer, the sequencer and restarts as one
 state machine over the database and the controller's memory.

 Every action is one atomic piece of the source: a database transaction or a
 critical section.  Workers and the two controller loops interleave freely; a
 restart loses everything but the database.
 */
module Pipeline {
  import opened Tables
  import JetTree

  /** The register's key is the whole pulse, not just its number. */
  datatype PulseKey = PulseKey(no: int, epoch: int, timestamp: int, next: int, prev: int)

  datatype Stage = Received | PulseStored | DropStored

  datatype Task = Task(key: PulseKey, jet: string, drop: Drop, records: seq<Record>, stage: Stage)

  /** Where the sequencer is between reading the next pulse and moving on to it. */
  datatype SeqStep = Idle | Found(n: int) | Marked(n: int)

  type Register = map<PulseKey, set<string>>

  datatype State = State(
    db: Db,
    register: Register,
    frontier: int,             // number of the sequential pulse in memory
    tasks: map<nat, Task>,     // jet drops being processed
    scan: Register,            // rest of the maintainer's copy of the register
    erasing: set<PulseKey>,    // completed in the database, not yet erased
    seqStep: SeqStep)

  datatype Action =
    | Receive(id: nat, task: Task)
    | StorePulse(id: nat)
    | StoreDrop(id: nat)
    | Notify(id: nat)
    | Retry(id: nat)
    | Snapshot
    | Complete(key: PulseKey)
    | PassOver(key: PulseKey)
    | Erase(key: PulseKey)
    | Clean(key: PulseKey)
    | FindNext(n: int)
    | Mark
    | Abandon
    | Advance
    | Restart(tip: int)

  function Start(): State {
    State(Db(map[], map[], map[]), map[], 0, map[], map[], {}, Idle)
  }

  /** What the platform promises: fixed links, and jet ids over '0' and '1'. */
  ghost predicate Genuine(prevOf: int -> int, t: Task) {
    t.stage == Received && t.key.prev == prevOf(t.key.no) && JetTree.Binary(t.jet)
  }

  ghost predicate Enabled(prevOf: int -> int, s: State, a: Action) {
    match a
    case Receive(id, t) => id !in s.tasks && Genuine(prevOf, t)
    case StorePulse(id) => id in s.tasks && s.tasks[id].stage == Received
    case StoreDrop(id) => id in s.tasks && s.tasks[id].stage == PulseStored
    case Notify(id) => id in s.tasks && s.tasks[id].stage == DropStored
    case Retry(id) => id in s.tasks
    case Snapshot => s.scan == map[] && s.erasing == {}
    case Complete(k) => k in s.scan && s.erasing == {} && JetTree.Tiles(s.scan[k])
    case PassOver(k) => k in s.scan && s.erasing == {}
    case Erase(k) => k in s.erasing
    case Clean(k) => s.frontier > k.no
    case FindNext(n) =>
      s.seqStep == Idle && IsLeast(n, WithPrev(s.db, s.frontier)) && s.db.pulses[n].complete
    case Mark => s.seqStep.Found?
    case Abandon => s.seqStep.Found?
    case Advance => s.seqStep.Marked?
    case Restart(tip) =>
      if SequentialPulses(s.db) == {} then tip == 0 else IsGreatest(tip, SequentialPulses(s.db))
  }

  function SetJetDropData(r: Register, key: PulseKey, jet: string): Register {
    r[key := (if key in r then r[key] else {}) + {jet}]
  }

  /** The key under which a restart registers an incomplete pulse. */
  function RestartKey(db: Db, n: int): PulseKey
    requires n in db.pulses
  {
    PulseKey(n, 0, 0, db.pulses[n].next, db.pulses[n].prev)
  }

  function RestartRegister(db: Db): Register {
    map n | n in db.pulses && !db.pulses[n].complete :: RestartKey(db, n) := StoredJets(db, n)
  }

  function StoreTaskDrop(db: Db, t: Task): Saved {
    SaveJetDropData(db, DropKey(t.key.no, t.jet), t.drop, t.records, t.key.no)
  }

  /** The new pulse row a task asks for. */
  function TaskPulse(t: Task): Pulse {
    Pulse(t.key.prev, t.key.next, false, false, t.key.timestamp, 0, 0)
  }

  function Apply(s: State, a: Action): State {
    match a
    case Receive(id, t) => s.(tasks := s.tasks[id := t])
    case StorePulse(id) =>
      if id !in s.tasks then s else
        var t := s.tasks[id];
        s.(db := SavePulse(s.db, t.key.no, TaskPulse(t)), tasks := s.tasks[id := t.(stage := PulseStored)])
    case StoreDrop(id) =>
      if id !in s.tasks then s else
        var t := s.tasks[id];
        var saved := StoreTaskDrop(s.db, t);
        if saved.ok then s.(db := saved.db, tasks := s.tasks[id := t.(stage := DropStored)]) else s
    case Notify(id) =>
      if id !in s.tasks then s else
        var t := s.tasks[id];
        s.(register := SetJetDropData(s.register, t.key, t.jet), tasks := s.tasks - {id})
    case Retry(id) =>
      if id !in s.tasks then s else s.(tasks := s.tasks[id := s.tasks[id].(stage := Received)])
    case Snapshot => s.(scan := s.register)
    case Complete(k) =>
      var saved := CompletePulse(s.db, k.no);
      s.(db := saved.db, scan := s.scan - {k}, erasing := if saved.ok then {k} else {})
    case PassOver(k) => s.(scan := s.scan - {k})
    case Erase(k) => s.(register := s.register - {k}, erasing := s.erasing - {k})
    case Clean(k) => s.(register := s.register - {k})
    case FindNext(n) => s.(seqStep := Found(n))
    case Mark =>
      if !s.seqStep.Found? then s else
        var saved := SequencePulse(s.db, s.seqStep.n);
        s.(db := saved.db, seqStep := if saved.ok then Marked(s.seqStep.n) else Idle)
    case Abandon => s.(seqStep := Idle)
    case Advance => if !s.seqStep.Marked? then s else s.(frontier := s.seqStep.n, seqStep := Idle)
    case Restart(tip) => State(s.db, RestartRegister(s.db), tip, map[], map[], {}, Idle)
  }

  /** A run: `states[i + 1]` follows from `states[i]` by `actions[i]`. */
  ghost predicate Run(prevOf: int -> int, states: seq<State>, actions: seq<Action>) {
    && |states| == |actions| + 1 && states[0] == Start()
    && forall i :: 0 <= i < |actions| ==>
         Enabled(prevOf, states[i], actions[i]) && states[i + 1] == Apply(states[i], actions[i])
  }

  /** The state after a sequence of actions, and whether each is enabled in its turn. */
  function Exec(s: State, actions: seq<Action>): State {
    if actions == [] then s else Apply(Exec(s, actions[..|actions| - 1]), actions[|actions| - 1])
  }

  ghost predicate CanExec(prevOf: int -> int, s: State, actions: seq<Action>) {
    actions != [] ==>
      var n := |actions| - 1;
      CanExec(prevOf, s, actions[..n]) && Enabled(prevOf, Exec(s, actions[..n]), actions[n])
  }

  lemma ExecOne(prevOf: int -> int, s: State, actions: seq<Action>, a: Action)
    ensures Exec(s, actions + [a]) == Apply(Exec(s, actions), a)
    ensures CanExec(prevOf, s, actions + [a]) <==> CanExec(prevOf, s, actions) && Enabled(prevOf, Exec(s, actions), a)
  {
    assert (actions + [a])[..|actions|] == actions;
  }

  lemma {:induction false} ExecConcat(prevOf: int -> int, s: State, x: seq<Action>, y: seq<Action>)
    ensures Exec(s, x + y) == Exec(Exec(s, x), y)
    ensures CanExec(prevOf, s, x + y) <==> CanExec(prevOf, s, x) && CanExec(prevOf, Exec(s, x), y)
  {
    if y == [] {
      assert x + y == x;
    } else {
      var n := |y| - 1;
      ExecConcat(prevOf, s, x, y[..n]);
      ExecOne(prevOf, s, x + y[..n], y[n]);
      assert x + y == (x + y[..n]) + [y[n]];
    }
  }

  // ---------------------------------------------------------------------
  // The database only grows
  // ---------------------------------------------------------------------

  ghost predicate RowGrows(a: Pulse, b: Pulse) {
    (a.complete ==> b.complete) && (a.sequential ==> b.sequential)
  }

  ghost predicate Grows(a: Db, b: Db) {
    && (forall n :: n in a.pulses ==> n in b.pulses && RowGrows(a.pulses[n], b.pulses[n]))
    && (forall k :: k in a.drops ==> k in b.drops)
  }

  lemma JetsGrow(a: Db, b: Db, n: int)
    requires Grows(a, b)
    ensures StoredJets(a, n) <= StoredJets(b, n)
  {
    forall j | j in StoredJets(a, n) ensures j in StoredJets(b, n) {
      assert DropKey(n, j) in a.drops;
    }
  }

  lemma StepGrows(prevOf: int -> int, s: State, a: Action)
    requires Enabled(prevOf, s, a)
    ensures Grows(s.db, Apply(s, a).db)
  {
    if a.StoreDrop? {
      var t := s.tasks[a.id];
      DropEffect(s.db, DropKey(t.key.no, t.jet), t.drop, t.records, t.key.no);
    }
  }

  // ---------------------------------------------------------------------
  // Completeness
  // ---------------------------------------------------------------------

  ghost predicate Registered(db: Db, r: Register) {
    forall k :: k in r ==> r[k] <= StoredJets(db, k.no)
  }

  ghost predicate TaskSound(prevOf: int -> int, db: Db, t: Task) {
    && t.key.prev == prevOf(t.key.no) && JetTree.Binary(t.jet)
    && (t.stage == DropStored ==> t.jet in StoredJets(db, t.key.no))
  }

  ghost predicate TasksSound(prevOf: int -> int, s: State) {
    forall id :: id in s.tasks ==> TaskSound(prevOf, s.db, s.tasks[id])
  }

  ghost predicate JetsBinary(db: Db) {
    forall k :: k in db.drops ==> JetTree.Binary(k.jet)
  }

  /** A pulse is marked complete only with tiling jet drops in the database. */
  ghost predicate Backed(db: Db, n: int) {
    exists d :: d <= StoredJets(db, n) && JetTree.Tiles(d)
  }

  ghost predicate CompleteBacked(db: Db) {
    forall n :: n in db.pulses && db.pulses[n].complete ==> Backed(db, n)
  }

  ghost predicate Sound(prevOf: int -> int, s: State) {
    && Registered(s.db, s.register) && Registered(s.db, s.scan)
    && TasksSound(prevOf, s) && JetsBinary(s.db) && CompleteBacked(s.db)
  }

  lemma BackedGrows(a: Db, b: Db, n: int)
    requires Grows(a, b) && Backed(a, n)
    ensures Backed(b, n)
  {
    JetsGrow(a, b, n);
    var d :| d <= StoredJets(a, n) && JetTree.Tiles(d);
    assert d <= StoredJets(b, n);
  }

  lemma RestartRegistered(db: Db)
    ensures Registered(db, RestartRegister(db))
  {
  }

  lemma StepRegistered(prevOf: int -> int, s: State, a: Action)
    requires Sound(prevOf, s) && Enabled(prevOf, s, a)
    ensures Registered(Apply(s, a).db, Apply(s, a).register) && Registered(Apply(s, a).db, Apply(s, a).scan)
  {
    StepGrows(prevOf, s, a);
    if a.Restart? {
      RestartRegistered(s.db);
    }
    if a.Notify? {
      assert TaskSound(prevOf, s.db, s.tasks[a.id]);
    }
  }

  lemma StepTasks(prevOf: int -> int, s: State, a: Action)
    requires Sound(prevOf, s) && Enabled(prevOf, s, a)
    ensures TasksSound(prevOf, Apply(s, a)) && JetsBinary(Apply(s, a).db)
  {
    StepGrows(prevOf, s, a);
    if a.StoreDrop? {
      var t := s.tasks[a.id];
      DropEffect(s.db, DropKey(t.key.no, t.jet), t.drop, t.records, t.key.no);
      assert TaskSound(prevOf, s.db, t);
      if StoreTaskDrop(s.db, t).ok {
        assert DropKey(t.key.no, t.jet) in Apply(s, a).db.drops;
      }
    }
  }

  /** Only the maintainer completes a pulse; saving it again never clears the mark. */
  lemma NewlyComplete(prevOf: int -> int, s: State, a: Action, n: int)
    requires Enabled(prevOf, s, a) && n in Apply(s, a).db.pulses && Apply(s, a).db.pulses[n].complete
    ensures (n in s.db.pulses && s.db.pulses[n].complete) || (a.Complete? && a.key.no == n)
  {
    if a.StoreDrop? {
      var t := s.tasks[a.id];
      DropEffect(s.db, DropKey(t.key.no, t.jet), t.drop, t.records, t.key.no);
    }
  }

  lemma StepBacked(prevOf: int -> int, s: State, a: Action)
    requires Sound(prevOf, s) && Enabled(prevOf, s, a)
    ensures CompleteBacked(Apply(s, a).db)
  {
    var db := Apply(s, a).db;
    StepGrows(prevOf, s, a);
    forall n | n in db.pulses && db.pulses[n].complete ensures Backed(db, n) {
      NewlyComplete(prevOf, s, a, n);
      if n in s.db.pulses && s.db.pulses[n].complete {
        BackedGrows(s.db, db, n);
      } else {
        assert s.scan[a.key] <= StoredJets(s.db, n);
        assert Backed(s.db, n);
        BackedGrows(s.db, db, n);
      }
    }
  }

  lemma StepSound(prevOf: int -> int, s: State, a: Action)
    requires Sound(prevOf, s) && Enabled(prevOf, s, a)
    ensures Sound(prevOf, Apply(s, a))
  {
    StepRegistered(prevOf, s, a);
    StepTasks(prevOf, s, a);
    StepBacked(prevOf, s, a);
  }

  lemma {:induction false} RunSound(prevOf: int -> int, states: seq<State>, actions: seq<Action>, i: nat)
    requires Run(prevOf, states, actions) && i < |states|
    ensures Sound(prevOf, states[i])
  {
    if i > 0 {
      RunSound(prevOf, states, actions, i - 1);
      StepSound(prevOf, states[i - 1], actions[i - 1]);
    }
  }

  /**
   In every reachable state, under every interleaving and any restarts, the
   stored jet drops of a complete pulse meet every long enough path of the
   jet tree.
   */
  lemma CompletePulsesCovered(prevOf: int -> int, states: seq<State>, actions: seq<Action>, i: nat, n: int, depth: nat)
    requires Run(prevOf, states, actions) && i < |states|
    requires n in states[i].db.pulses && states[i].db.pulses[n].complete
    requires JetTree.Bounded(StoredJets(states[i].db, n), depth)
    ensures JetTree.Covers(StoredJets(states[i].db, n), depth)
  {
    RunSound(prevOf, states, actions, i);
    var jets := StoredJets(states[i].db, n);
    assert Backed(states[i].db, n);
    var d :| d <= jets && JetTree.Tiles(d);
    forall j | j in d ensures JetTree.Binary(j) {
      assert DropKey(n, j) in states[i].db.drops;
    }
    JetTree.TilesCovers(d, depth);
    JetTree.CoversMonotone(d, jets, depth);
  }

  // ---------------------------------------------------------------------
  // The sequential frontier
  // ---------------------------------------------------------------------

  /** Links lead to smaller pulse numbers. */
  ghost predicate Ascending(prevOf: int -> int) {
    forall n :: prevOf(n) < n
  }

  ghost predicate LinksStored(prevOf: int -> int, db: Db) {
    forall n :: n in db.pulses ==> db.pulses[n].prev == prevOf(n)
  }

  function Tip(chain: seq<int>): int {
    if chain == [] then 0 else chain[|chain| - 1]
  }

  ghost predicate LinkAt(db: Db, chain: seq<int>, i: nat)
    requires i < |chain|
  {
    && chain[i] in db.pulses
    && db.pulses[chain[i]].complete && db.pulses[chain[i]].sequential
    && db.pulses[chain[i]].prev == if i == 0 then 0 else chain[i - 1]
  }

  /** The sequential pulses are a prev-linked chain of complete pulses from 0. */
  ghost predicate IsChain(db: Db, chain: seq<int>) {
    && (forall i :: 0 <= i < |chain| ==> LinkAt(db, chain, i))
    && (forall n :: n in SequentialPulses(db) ==> n in chain)
  }

  /** The frontier in memory is the tip, or one short of it while moving on. */
  ghost predicate AtFrontier(s: State, chain: seq<int>) {
    match s.seqStep
    case Idle => s.frontier == Tip(chain)
    case Found(n) =>
      && s.frontier == Tip(chain)
      && n in s.db.pulses && s.db.pulses[n].complete && s.db.pulses[n].prev == s.frontier
    case Marked(n) => chain != [] && n == Tip(chain) && s.frontier == Tip(chain[..|chain| - 1])
  }

  ghost predicate Sequenced(prevOf: int -> int, s: State, chain: seq<int>) {
    LinksStored(prevOf, s.db) && IsChain(s.db, chain) && AtFrontier(s, chain)
  }

  lemma {:induction false} ChainAscends(prevOf: int -> int, db: Db, chain: seq<int>, i: nat, j: nat)
    requires Ascending(prevOf) && LinksStored(prevOf, db) && IsChain(db, chain) && i < j < |chain|
    ensures chain[i] < chain[j]
  {
    assert LinkAt(db, chain, j);
    if i < j - 1 {
      ChainAscends(prevOf, db, chain, i, j - 1);
    }
  }

  /** Restarting from the greatest sequential pulse recovers the tip. */
  lemma GreatestIsTip(prevOf: int -> int, db: Db, chain: seq<int>, tip: int)
    requires Ascending(prevOf) && LinksStored(prevOf, db) && IsChain(db, chain)
    requires if SequentialPulses(db) == {} then tip == 0 else IsGreatest(tip, SequentialPulses(db))
    ensures tip == Tip(chain)
  {
    if chain != [] {
      var m := |chain| - 1;
      assert LinkAt(db, chain, m);
      assert chain[m] in SequentialPulses(db);
      assert tip in chain;
      var i :| 0 <= i < |chain| && chain[i] == tip;
      if i < m {
        ChainAscends(prevOf, db, chain, i, m);
      }
    } else {
      assert SequentialPulses(db) == {};
    }
  }

  lemma StepLinks(prevOf: int -> int, s: State, a: Action)
    requires TasksSound(prevOf, s) && LinksStored(prevOf, s.db) && Enabled(prevOf, s, a)
    ensures LinksStored(prevOf, Apply(s, a).db)
  {
    if a.StoreDrop? {
      var t := s.tasks[a.id];
      DropEffect(s.db, DropKey(t.key.no, t.jet), t.drop, t.records, t.key.no);
    }
    if a.StorePulse? {
      assert TaskSound(prevOf, s.db, s.tasks[a.id]);
    }
  }

  /** Only the sequencer's mark makes a pulse sequential. */
  lemma NewlySequential(prevOf: int -> int, s: State, a: Action, n: int)
    requires Enabled(prevOf, s, a) && n in SequentialPulses(Apply(s, a).db)
    ensures n in SequentialPulses(s.db) || (a.Mark? && n == s.seqStep.n)
  {
    if a.StoreDrop? {
      var t := s.tasks[a.id];
      DropEffect(s.db, DropKey(t.key.no, t.jet), t.drop, t.records, t.key.no);
    }
  }

  lemma LinkGrows(prevOf: int -> int, a: Db, b: Db, chain: seq<int>, i: nat)
    requires Grows(a, b) && LinksStored(prevOf, a) && LinksStored(prevOf, b) && i < |chain|
    requires LinkAt(a, chain, i)
    ensures LinkAt(b, chain, i)
  {
    var n := chain[i];
    assert n in a.pulses;
    assert n in b.pulses && RowGrows(a.pulses[n], b.pulses[n]);
    assert a.pulses[n].prev == prevOf(n) == b.pulses[n].prev;
  }

  lemma ChainGrows(prevOf: int -> int, s: State, a: Action, chain: seq<int>)
    requires TasksSound(prevOf, s) && Sequenced(prevOf, s, chain) && Enabled(prevOf, s, a) && !a.Mark?
    ensures IsChain(Apply(s, a).db, chain)
  {
    var db := Apply(s, a).db;
    StepGrows(prevOf, s, a);
    StepLinks(prevOf, s, a);
    forall i | 0 <= i < |chain| ensures LinkAt(db, chain, i) {
      LinkGrows(prevOf, s.db, db, chain, i);
    }
    forall n | n in SequentialPulses(db) ensures n in chain {
      NewlySequential(prevOf, s, a, n);
    }
  }

  lemma MarkExtends(prevOf: int -> int, s: State, chain: seq<int>)
    requires Sequenced(prevOf, s, chain) && s.seqStep.Found?
    ensures IsChain(Apply(s, Mark).db, chain + [s.seqStep.n])
    ensures Apply(s, Mark).seqStep == Marked(s.seqStep.n)
  {
    var db, longer := Apply(s, Mark).db, chain + [s.seqStep.n];
    forall i | 0 <= i < |longer| ensures LinkAt(db, longer, i) {
      assert i < |chain| ==> LinkAt(s.db, chain, i) && longer[i] == chain[i];
      assert 0 < i ==> longer[i - 1] == chain[i - 1];
    }
    forall n | n in SequentialPulses(db) ensures n in longer {
      NewlySequential(prevOf, s, Mark, n);
    }
  }

  /** Every action keeps the chain or extends it by the next pulse. */
  lemma StepSequenced(prevOf: int -> int, s: State, a: Action, chain: seq<int>) returns (chain': seq<int>)
    requires Ascending(prevOf) && TasksSound(prevOf, s) && Sequenced(prevOf, s, chain) && Enabled(prevOf, s, a)
    ensures Sequenced(prevOf, Apply(s, a), chain') && chain <= chain'
    ensures Apply(s, a).frontier >= s.frontier && (a.Advance? ==> Apply(s, a).frontier > s.frontier)
  {
    StepLinks(prevOf, s, a);
    if a.Mark? {
      chain' := chain + [s.seqStep.n];
      MarkExtends(prevOf, s, chain);
      assert chain'[..|chain|] == chain;
    } else {
      chain' := chain;
      ChainGrows(prevOf, s, a, chain);
      StepGrows(prevOf, s, a);
      if a.Restart? {
        GreatestIsTip(prevOf, s.db, chain, a.tip);
      }
      if s.seqStep.Marked? {
        FrontierBelowTip(prevOf, s, chain);
      }
    }
  }

  lemma FrontierBelowTip(prevOf: int -> int, s: State, chain: seq<int>)
    requires Ascending(prevOf) && Sequenced(prevOf, s, chain) && s.seqStep.Marked?
    ensures s.frontier < Tip(chain)
  {
    assert LinkAt(s.db, chain, |chain| - 1);
  }

  lemma {:induction false} RunSequenced(prevOf: int -> int, states: seq<State>, actions: seq<Action>, i: nat)
    returns (chain: seq<int>)
    requires Ascending(prevOf) && Run(prevOf, states, actions) && i < |states|
    ensures Sequenced(prevOf, states[i], chain)
  {
    chain := [];
    if i > 0 {
      var before := RunSequenced(prevOf, states, actions, i - 1);
      RunSound(prevOf, states, actions, i - 1);
      chain := StepSequenced(prevOf, states[i - 1], actions[i - 1], before);
    }
  }

  /**
   In every reachable state there is one chain of stored, complete and
   sequential pulses from 0 whose tip the frontier is, or is about to become.
   */
  lemma FrontierIsTip(prevOf: int -> int, states: seq<State>, actions: seq<Action>, i: nat)
    requires Ascending(prevOf) && Run(prevOf, states, actions) && i < |states|
    ensures exists chain :: IsChain(states[i].db, chain) && AtFrontier(states[i], chain)
  {
    var chain := RunSequenced(prevOf, states, actions, i);
  }

  /** The frontier never moves back, not even across restarts. */
  lemma {:induction false} FrontierNeverMovesBack(
    prevOf: int -> int, states: seq<State>, actions: seq<Action>, i: nat, j: nat)
    requires Ascending(prevOf) && Run(prevOf, states, actions) && i <= j < |states|
    ensures states[i].frontier <= states[j].frontier
  {
    if i < j {
      FrontierNeverMovesBack(prevOf, states, actions, i, j - 1);
      var chain := RunSequenced(prevOf, states, actions, j - 1);
      RunSound(prevOf, states, actions, j - 1);
      var next := StepSequenced(prevOf, states[j - 1], actions[j - 1], chain);
    }
  }

  /** A restart between the database mark and the assignment still finds the marked pulse. */
  lemma RestartRecovers(prevOf: int -> int, states: seq<State>, actions: seq<Action>, i: nat)
    requires Ascending(prevOf) && Run(prevOf, states, actions) && i < |actions| && actions[i].Restart?
    ensures states[i].seqStep.Marked? ==> states[i + 1].frontier == states[i].seqStep.n
    ensures !states[i].seqStep.Marked? ==> states[i + 1].frontier == states[i].frontier
  {
    var chain := RunSequenced(prevOf, states, actions, i);
    GreatestIsTip(prevOf, states[i].db, chain, actions[i].tip);
  }
}
