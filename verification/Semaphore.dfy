/**
 The worker semaphore under interleaving.  Every thread runs the program of
 retrievePulses or of retrieveRecords, one atomic step at a time: the main
 thread, reloads in serial and in parallel mode, and the goroutines started
 for single pulses.

 The source only has a counter.  The model also numbers the slots: a
 successful take puts a new number into the thread's hands, a `go` statement
 passes on whatever is in them, and freeWorker puts it into `freed`.  That a
 thread has exactly one slot in its hands wherever it calls freeWorker is not
 a guard of the model: it is proved of the programs.
 */
module WorkerSemaphore {

  // ---------------------------------------------------------------------
  // The programs
  // ---------------------------------------------------------------------

  datatype Pc =
    | Top                       // head of the loop, before the context check
    | Asking                    // about to increment the counter
    | Undoing                   // incremented beyond the maximum
    | Waiting                   // waiting for the next pulse
    | Releasing                 // in an error branch or with no new pulse
    | Spawning(reached: bool)   // at the `go` statement
    | Fetching(reached: bool)   // in the body of retrieveRecords
    | Deferred(reached: bool)   // in its deferred function
    | Fetched(reached: bool)    // after the call or the `go` statement
    | Refused                   // left the loop on a version error
    | Ended

  /** `goroutine`: runs retrieveRecords alone. `hands`: the slots it has. */
  datatype Thread = Thread(main: bool, goroutine: bool, pc: Pc, hands: set<nat>)

  datatype State = State(counter: int, threads: map<nat, Thread>, issued: nat, freed: set<nat>)

  datatype Reply =
    | VersionError
    | RateLimit
    | NotFound
    | OtherError
    | SamePulse
    | NewPulse(reached: bool)  // `reached`: at or beyond the end of the reload

  /** The ways out of retrieveRecords; each runs the deferred function. */
  datatype Return = Skipped | Cancelled | VersionRefused | CancelledInStream | NoData | WholePulse

  datatype Action =
    | Start(id: nat, main: bool)
    | Cancel(id: nat)
    | Begin(id: nat)
    | Take(id: nat)
    | Undo(id: nat)
    | Receive(id: nat, reply: Reply)
    | Release(id: nat)
    | Spawn(id: nat, worker: nat)
    | Finish(id: nat, way: Return)
    | RunDeferred(id: nat)
    | Proceed(id: nat)

  predicate At(s: State, id: nat, pc: Pc) {
    id in s.threads && s.threads[id].pc == pc
  }

  predicate Enabled(s: State, a: Action) {
    match a
    case Start(id, _) => id !in s.threads
    case Cancel(id) => At(s, id, Top)
    case Begin(id) => At(s, id, Top)
    case Take(id) => At(s, id, Asking)
    case Undo(id) => At(s, id, Undoing)
    case Receive(id, _) => At(s, id, Waiting)
    case Release(id) => At(s, id, Releasing)
    case Spawn(id, worker) => id in s.threads && s.threads[id].pc.Spawning? && worker !in s.threads
    case Finish(id, _) => id in s.threads && s.threads[id].pc.Fetching?
    case RunDeferred(id) => id in s.threads && s.threads[id].pc.Deferred?
    case Proceed(id) => id in s.threads && s.threads[id].pc.Fetched?
  }

  function Put(s: State, id: nat, t: Thread): State {
    s.(threads := s.threads[id := t])
  }

  /** `if !mainThread { e.freeWorker() }`, then on to `pc`. */
  function FreeWorker(s: State, id: nat, t: Thread, pc: Pc): State {
    if t.main then Put(s, id, t.(pc := pc))
    else Put(s, id, t.(pc := pc, hands := {})).(counter := s.counter - 1, freed := s.freed + t.hands)
  }

  /** Where a reply leads. */
  function AfterReply(main: bool, max: int, reply: Reply): Pc {
    match reply
    case VersionError => Refused
    case NewPulse(reached) => if !main && max <= 3 then Fetching(reached) else Spawning(reached)
    case _ => Releasing
  }

  function AfterFetch(t: Thread, reached: bool): Pc {
    if t.goroutine then Ended else Fetched(reached)
  }

  function AtEnd(main: bool, reached: bool): Pc {
    if !main && reached then Ended else Top
  }

  /** The effect of an action on its thread `t`. */
  function Move(s: State, max: int, a: Action, t: Thread): State {
    match a
    case Start(id, main) => Put(s, id, Thread(main, false, Top, {}))
    case Cancel(id) => Put(s, id, t.(pc := Ended))
    case Begin(id) => Put(s, id, t.(pc := if t.main then Waiting else Asking))
    case Take(id) =>
      if s.counter + 1 > max then Put(s, id, t.(pc := Undoing)).(counter := s.counter + 1)
      else Put(s, id, t.(pc := Waiting, hands := t.hands + {s.issued}))
             .(counter := s.counter + 1, issued := s.issued + 1)
    case Undo(id) => Put(s, id, t.(pc := Asking)).(counter := s.counter - 1)
    case Receive(id, reply) => Put(s, id, t.(pc := AfterReply(t.main, max, reply)))
    case Release(id) => FreeWorker(s, id, t, Top)
    case Spawn(id, worker) =>
      var rest := Put(s, id, t.(pc := Fetched(t.pc.Spawning? && t.pc.reached), hands := {}));
      Put(rest, worker, Thread(t.main, true, Fetching(false), t.hands))
    case Finish(id, _) => Put(s, id, t.(pc := Deferred(t.pc.Fetching? && t.pc.reached)))
    case RunDeferred(id) => FreeWorker(s, id, t, AfterFetch(t, t.pc.Deferred? && t.pc.reached))
    case Proceed(id) => Put(s, id, t.(pc := AtEnd(t.main, t.pc.Fetched? && t.pc.reached)))
  }

  function Apply(s: State, max: int, a: Action): State {
    Move(s, max, a, if a.id in s.threads then s.threads[a.id] else Thread(false, false, Ended, {}))
  }

  function Init(): State {
    State(0, map[], 0, {})
  }

  ghost predicate Run(states: seq<State>, actions: seq<Action>, max: int) {
    Steps(states, actions, max) && states[0] == Init()
  }

  ghost predicate Steps(states: seq<State>, actions: seq<Action>, max: int) {
    && |states| == |actions| + 1
    && forall i :: 0 <= i < |actions| ==>
         Enabled(states[i], actions[i]) && states[i + 1] == Apply(states[i], max, actions[i])
  }

  // ---------------------------------------------------------------------
  // What the programs keep
  // ---------------------------------------------------------------------

  /** How many slots the program should have at each point. */
  function Owned(main: bool, pc: Pc): nat {
    if main then 0
    else match pc
      case Waiting => 1
      case Releasing => 1
      case Spawning(_) => 1
      case Fetching(_) => 1
      case Deferred(_) => 1
      case Refused => 1
      case _ => 0
  }

  ghost predicate HandsRight(s: State) {
    forall id :: id in s.threads ==> HandRight(s.threads[id])
  }

  predicate HandRight(t: Thread) {
    && |t.hands| == Owned(t.main, t.pc)
    && (t.main ==> t.pc != Asking && t.pc != Undoing)
  }

  /** Issued and not freed. */
  function Outstanding(s: State): set<nat> {
    set t | 0 <= t < s.issued && t !in s.freed
  }

  predicate Has(s: State, id: nat, slot: nat) {
    id in s.threads && slot in s.threads[id].hands
  }

  /** Every outstanding slot is in the hands of exactly one thread, and no other slot is. */
  ghost predicate SlotsHeld(s: State) {
    && (forall id, slot :: Has(s, id, slot) ==> slot in Outstanding(s))
    && (forall slot :: slot in Outstanding(s) ==> exists id :: Has(s, id, slot))
    && (forall i, j, slot :: Has(s, i, slot) && Has(s, j, slot) ==> i == j)
  }

  function Pending(threads: map<nat, Thread>): set<nat> {
    set id | id in threads && threads[id].pc == Undoing
  }

  ghost predicate FreedIssued(s: State) {
    forall slot :: slot in s.freed ==> slot < s.issued
  }

  ghost predicate Counted(s: State, max: int) {
    && FreedIssued(s)
    && s.counter == |Outstanding(s)| + |Pending(s.threads)|
    && (Outstanding(s) == {} || |Outstanding(s)| <= max)
  }

  ghost predicate Balanced(s: State, max: int) {
    HandsRight(s) && SlotsHeld(s) && Counted(s, max)
  }

  /** The main thread never has a slot; the others have exactly one wherever they free. */
  lemma FreeSite(s: State, id: nat)
    requires HandsRight(s) && SlotsHeld(s) && id in s.threads
    requires s.threads[id].pc == Releasing || s.threads[id].pc.Deferred?
    ensures s.threads[id].main ==> s.threads[id].hands == {}
    ensures !s.threads[id].main ==>
      exists slot :: s.threads[id].hands == {slot} && slot in Outstanding(s)
  {
    var hands := s.threads[id].hands;
    if !s.threads[id].main {
      var slot :| slot in hands;
      assert |hands - {slot}| == 0;
      assert hands == {slot} && Has(s, id, slot);
    }
  }

  lemma StepHands(s: State, max: int, a: Action)
    requires HandsRight(s) && SlotsHeld(s) && Enabled(s, a)
    ensures HandsRight(Apply(s, max, a))
  {
    if a.Take? {
      assert HandRight(s.threads[a.id]);
    } else if !a.Start? {
      assert HandRight(s.threads[a.id]);
    }
  }

  predicate SameHands(s: State, s': State) {
    && s'.issued == s.issued && s'.freed == s.freed
    && (forall id :: id in s.threads ==> id in s'.threads && s'.threads[id].hands == s.threads[id].hands)
    && (forall id :: id in s'.threads && id !in s.threads ==> s'.threads[id].hands == {})
  }

  lemma SlotsKept(s: State, s': State)
    requires SlotsHeld(s) && SameHands(s, s')
    ensures SlotsHeld(s')
  {
    assert Outstanding(s') == Outstanding(s);
    forall id, slot ensures Has(s', id, slot) <==> Has(s, id, slot) {
    }
  }

  lemma TakeSlots(s: State, max: int, id: nat)
    requires SlotsHeld(s) && At(s, id, Asking) && s.counter + 1 <= max && FreedIssued(s)
    ensures SlotsHeld(Apply(s, max, Take(id)))
    ensures Outstanding(Apply(s, max, Take(id))) == Outstanding(s) + {s.issued} && s.issued !in Outstanding(s)
  {
    var s' := Apply(s, max, Take(id));
    assert Outstanding(s') == Outstanding(s) + {s.issued};
    forall i, slot ensures Has(s', i, slot) <==> Has(s, i, slot) || (i == id && slot == s.issued) {
    }
    assert Has(s', id, s.issued);
    forall slot | slot in Outstanding(s') ensures exists i :: Has(s', i, slot) {
      if slot != s.issued {
        var i :| Has(s, i, slot);
        assert Has(s', i, slot);
      }
    }
  }

  lemma FreeSlots(s: State, id: nat, slot: nat, pc: Pc)
    requires SlotsHeld(s) && id in s.threads && !s.threads[id].main && s.threads[id].hands == {slot}
    ensures SlotsHeld(FreeWorker(s, id, s.threads[id], pc))
    ensures Outstanding(FreeWorker(s, id, s.threads[id], pc)) == Outstanding(s) - {slot} && slot in Outstanding(s)
  {
    var s' := FreeWorker(s, id, s.threads[id], pc);
    assert Has(s, id, slot);
    assert Outstanding(s') == Outstanding(s) - {slot};
    forall i, x ensures Has(s', i, x) <==> Has(s, i, x) && x != slot {
      if Has(s, i, slot) {
        assert i == id;
      }
    }
    forall x | x in Outstanding(s') ensures exists i :: Has(s', i, x) {
      var i :| Has(s, i, x);
      assert Has(s', i, x);
    }
  }

  /** A `go` statement moves what the thread has into the hands of the goroutine. */
  lemma SpawnSlots(s: State, max: int, id: nat, worker: nat)
    requires SlotsHeld(s) && Enabled(s, Spawn(id, worker))
    ensures SlotsHeld(Apply(s, max, Spawn(id, worker)))
    ensures Outstanding(Apply(s, max, Spawn(id, worker))) == Outstanding(s)
  {
    var s' := Apply(s, max, Spawn(id, worker));
    assert Outstanding(s') == Outstanding(s);
    forall i, x ensures Has(s', i, x) <==> (Has(s, i, x) && i != id) || (i == worker && Has(s, id, x)) {
    }
    forall x | x in Outstanding(s') ensures exists i :: Has(s', i, x) {
      var i :| Has(s, i, x);
      assert Has(s', if i == id then worker else i, x);
    }
  }

  /** A call of freeWorker takes exactly one outstanding slot away. */
  lemma FreeStep(s: State, max: int, a: Action) returns (slot: nat)
    requires HandsRight(s) && SlotsHeld(s) && FreedIssued(s) && Enabled(s, a)
    requires (a.Release? || a.RunDeferred?) && !s.threads[a.id].main
    ensures var s' := Apply(s, max, a);
      && SlotsHeld(s') && FreedIssued(s') && s'.counter == s.counter - 1
      && slot in Outstanding(s) && Outstanding(s') == Outstanding(s) - {slot}
  {
    FreeSite(s, a.id);
    var t := s.threads[a.id];
    slot :| t.hands == {slot} && slot in Outstanding(s);
    FreeSlots(s, a.id, slot, if a.Release? then Top else AfterFetch(t, t.pc.reached));
  }

  /** The slots and the set of outstanding ones, action by action. */
  lemma StepSlots(s: State, max: int, a: Action)
    requires HandsRight(s) && SlotsHeld(s) && Enabled(s, a) && FreedIssued(s)
    ensures SlotsHeld(Apply(s, max, a))
  {
    if a.Take? && s.counter + 1 <= max {
      TakeSlots(s, max, a.id);
    } else if (a.Release? || a.RunDeferred?) && !s.threads[a.id].main {
      var slot := FreeStep(s, max, a);
    } else if a.Spawn? {
      SpawnSlots(s, max, a.id, a.worker);
    } else {
      SlotsKept(s, Apply(s, max, a));
    }
  }

  predicate Frees(s: State, a: Action)
    requires Enabled(s, a)
  {
    (a.Release? || a.RunDeferred?) && !s.threads[a.id].main
  }

  /** Every other action leaves the outstanding slots and, but for undo and overflow, the counter. */
  lemma KeepsOutstanding(s: State, max: int, a: Action)
    requires Enabled(s, a) && !Frees(s, a) && !(a.Take? && s.counter + 1 <= max)
    ensures var s' := Apply(s, max, a);
      && Outstanding(s') == Outstanding(s) && (FreedIssued(s) ==> FreedIssued(s'))
      && s'.counter == s.counter + if a.Take? then 1 else if a.Undo? then -1 else 0
  {
  }

  lemma StepCounted(s: State, max: int, a: Action)
    requires Balanced(s, max) && Enabled(s, a)
    ensures Counted(Apply(s, max, a), max)
  {
    PendingStep(s, max, a);
    if a.Take? && s.counter + 1 <= max {
      TakeSlots(s, max, a.id);
    } else if Frees(s, a) {
      var slot := FreeStep(s, max, a);
    } else {
      KeepsOutstanding(s, max, a);
    }
  }

  function IsPending(threads: map<nat, Thread>, id: nat): nat {
    if id in threads && threads[id].pc == Undoing then 1 else 0
  }

  lemma PendingPut(threads: map<nat, Thread>, id: nat, t: Thread)
    ensures |Pending(threads[id := t])| ==
      |Pending(threads)| - IsPending(threads, id) + if t.pc == Undoing then 1 else 0
  {
    var before, after := Pending(threads), Pending(threads[id := t]);
    assert after == if t.pc == Undoing then before + {id} else before - {id};
  }

  lemma PendingStep(s: State, max: int, a: Action)
    requires Enabled(s, a)
    ensures |Pending(Apply(s, max, a).threads)| == |Pending(s.threads)| +
      if a.Take? && s.counter + 1 > max then 1 else if a.Undo? then -1 else 0
  {
    var after := Apply(s, max, a).threads;
    if a.Spawn? {
      var once := s.threads[a.id := after[a.id]];
      PendingPut(s.threads, a.id, after[a.id]);
      PendingPut(once, a.worker, after[a.worker]);
      assert after == once[a.worker := after[a.worker]];
    } else {
      PendingPut(s.threads, a.id, after[a.id]);
      assert after == s.threads[a.id := after[a.id]];
    }
  }

  lemma {:induction false} RunBalanced(states: seq<State>, actions: seq<Action>, max: int, i: nat)
    requires Run(states, actions, max) && i < |states|
    ensures Balanced(states[i], max)
  {
    if i > 0 {
      RunBalanced(states, actions, max, i - 1);
      var s, a := states[i - 1], actions[i - 1];
      StepHands(s, max, a);
      StepSlots(s, max, a);
      StepCounted(s, max, a);
    } else {
      assert Outstanding(Init()) == {} && Pending(Init().threads) == {};
    }
  }

  // ---------------------------------------------------------------------
  // Each slot is freed exactly once
  // ---------------------------------------------------------------------

  /**
   Wherever a run calls freeWorker, the thread has exactly one slot in its
   hands, issued and not freed before; nothing else ever frees a slot.
   */
  lemma FreedOnce(states: seq<State>, actions: seq<Action>, max: int, i: nat)
    requires Run(states, actions, max) && i < |actions|
    ensures var s, a, s' := states[i], actions[i], states[i + 1];
      if (a.Release? || a.RunDeferred?) && !s.threads[a.id].main
      then exists slot :: s.threads[a.id].hands == {slot} && slot in Outstanding(s)
             && s'.freed == s.freed + {slot} && s'.counter == s.counter - 1
      else s'.freed == s.freed
  {
    RunBalanced(states, actions, max, i);
    var s, a := states[i], actions[i];
    if (a.Release? || a.RunDeferred?) && !s.threads[a.id].main {
      FreeSite(s, a.id);
    }
  }

  /**
   In every reachable state a slot is either freed and in no hands, or in the
   hands of exactly one thread that still has its release ahead of it or has
   left the loop on a version error.
   */
  lemma SlotFate(states: seq<State>, actions: seq<Action>, max: int, i: nat, slot: nat)
    requires Run(states, actions, max) && i < |states| && slot < states[i].issued
    ensures var s := states[i];
      if slot in s.freed then forall id :: !Has(s, id, slot)
      else exists id :: Has(s, id, slot) && Owned(s.threads[id].main, s.threads[id].pc) == 1
             && forall j :: Has(s, j, slot) ==> j == id
  {
    RunBalanced(states, actions, max, i);
    var s := states[i];
    if slot !in s.freed {
      assert slot in Outstanding(s);
      var id :| Has(s, id, slot);
      assert HandRight(s.threads[id]);
    }
  }

  /** Reloads that left their loop on a version error. */
  function RefusedReloads(s: State): set<nat> {
    set id | id in s.threads && !s.threads[id].main && s.threads[id].pc == Refused
  }

  ghost predicate AtRest(s: State) {
    forall id :: id in s.threads ==> s.threads[id].pc == Ended || s.threads[id].pc == Refused
  }

  /** Distinct threads that each have a slot, all different, number at most the slots. */
  lemma {:induction false} HoldersBound(s: State, ids: set<nat>, slots: set<nat>)
    requires SlotsHeld(s)
    requires forall id :: id in ids ==> id in s.threads && s.threads[id].hands != {} && s.threads[id].hands <= slots
    ensures |ids| <= |slots|
  {
    if ids != {} {
      var id :| id in ids;
      var slot :| slot in s.threads[id].hands;
      assert Has(s, id, slot);
      forall j | j in ids - {id} ensures s.threads[j].hands <= slots - {slot} {
        if slot in s.threads[j].hands {
          assert Has(s, j, slot);
        }
      }
      HoldersBound(s, ids - {id}, slots - {slot});
    }
  }

  /** Slots in the hands of threads with one slot each number at most those threads. */
  lemma {:induction false} SlotsBound(s: State, ids: set<nat>, slots: set<nat>)
    requires forall slot :: slot in slots ==> exists id :: id in ids && Has(s, id, slot)
    requires forall id :: id in ids ==> id in s.threads && |s.threads[id].hands| <= 1
    ensures |slots| <= |ids|
  {
    if slots != {} {
      var slot :| slot in slots;
      var id :| id in ids && Has(s, id, slot);
      var hands := s.threads[id].hands;
      assert |hands - {slot}| == 0;
      assert hands == {slot};
      forall x | x in slots - {slot} ensures exists j :: j in ids - {id} && Has(s, j, x) {
        var j :| j in ids && Has(s, j, x);
        assert j != id;
      }
      SlotsBound(s, ids - {id}, slots - {slot});
    }
  }

  /**
   Once all threads have ended, exactly one slot is missing for each reload
   that met a version error: every other slot was freed.
   */
  lemma QuietCounter(states: seq<State>, actions: seq<Action>, max: int)
    requires Run(states, actions, max) && AtRest(states[|actions|])
    ensures var s := states[|actions|];
      s.counter == |RefusedReloads(s)| == |Outstanding(s)| && (s.counter == 0 || s.counter <= max)
  {
    var s := states[|actions|];
    RunBalanced(states, actions, max, |actions|);
    OwnersBound(s, RefusedReloads(s));
    forall slot | slot in Outstanding(s) ensures exists id :: id in RefusedReloads(s) && Has(s, id, slot) {
      var id :| Has(s, id, slot);
      assert HandRight(s.threads[id]);
    }
    forall id | id in RefusedReloads(s) ensures |s.threads[id].hands| <= 1 {
      assert HandRight(s.threads[id]);
    }
    SlotsBound(s, RefusedReloads(s), Outstanding(s));
    assert Pending(s.threads) == {};
  }

  // ---------------------------------------------------------------------
  // Ends and modes
  // ---------------------------------------------------------------------

  /** A reload that has received a pulse at or beyond its end. */
  predicate AtItsEnd(t: Thread) {
    && !t.main && !t.goroutine
    && (t.pc == Spawning(true) || t.pc == Fetching(true) || t.pc == Deferred(true) || t.pc == Fetched(true)
        || t.pc == Ended)
  }

  lemma StepAtEnd(s: State, max: int, a: Action, id: nat)
    requires Enabled(s, a) && id in s.threads && AtItsEnd(s.threads[id])
    ensures id in Apply(s, max, a).threads && AtItsEnd(Apply(s, max, a).threads[id])
    ensures !(a.Take? && a.id == id)
  {
  }

  /** Once a pulse at or beyond its end has arrived, a reload never asks for a slot again. */
  lemma {:induction false} NothingAfterTheEnd(
    states: seq<State>, actions: seq<Action>, max: int, i: nat, j: nat, id: nat)
    requires Run(states, actions, max) && i < j < |states|
    requires actions[i] == Receive(id, NewPulse(true))
    requires !states[i].threads[id].main && !states[i].threads[id].goroutine
    ensures id in states[j].threads && AtItsEnd(states[j].threads[id])
    ensures j < |actions| ==> !(actions[j].Take? && actions[j].id == id)
  {
    if i + 1 < j {
      NothingAfterTheEnd(states, actions, max, i, j - 1, id);
      StepAtEnd(states[j - 1], max, actions[j - 1], id);
    }
    if j < |actions| {
      StepAtEnd(states[j], max, actions[j], id);
    }
  }

  /** An earlier action among the first n. */
  ghost predicate Happened(actions: seq<Action>, n: nat, a: Action) {
    n <= |actions| && exists k :: 0 <= k < n && actions[k] == a
  }

  predicate PastTheEnd(pc: Pc) {
    pc == Spawning(true) || pc == Fetching(true) || pc == Deferred(true) || pc == Fetched(true)
  }

  /** What has brought a loop where it is. */
  ghost predicate Caused(actions: seq<Action>, n: nat, id: nat, t: Thread) {
    && (PastTheEnd(t.pc) ==> Happened(actions, n, Receive(id, NewPulse(true))))
    && (t.pc == Refused ==> Happened(actions, n, Receive(id, VersionError)))
    && (t.pc == Ended && !t.goroutine ==>
          Happened(actions, n, Cancel(id)) || (!t.main && Happened(actions, n, Receive(id, NewPulse(true)))))
    && (t.goroutine ==> t.pc != Refused && !PastTheEnd(t.pc))
  }

  lemma HappenedStays(actions: seq<Action>, n: nat, a: Action)
    requires n < |actions|
    ensures Happened(actions, n + 1, a) <==> Happened(actions, n, a) || actions[n] == a
  {
  }

  lemma CausedStays(actions: seq<Action>, n: nat, id: nat, t: Thread)
    requires n < |actions| && Caused(actions, n, id, t)
    ensures Caused(actions, n + 1, id, t)
  {
    HappenedStays(actions, n, Receive(id, NewPulse(true)));
    HappenedStays(actions, n, Receive(id, VersionError));
    HappenedStays(actions, n, Cancel(id));
  }

  lemma StepCaused(s: State, max: int, actions: seq<Action>, n: nat, id: nat)
    requires n < |actions| && Enabled(s, actions[n]) && id in Apply(s, max, actions[n]).threads
    requires id in s.threads ==> Caused(actions, n, id, s.threads[id]) && ThreadMode(s.threads[id], max)
    ensures Caused(actions, n + 1, id, Apply(s, max, actions[n]).threads[id])
  {
    HappenedStays(actions, n, Receive(id, NewPulse(true)));
    HappenedStays(actions, n, Receive(id, VersionError));
    HappenedStays(actions, n, Cancel(id));
    if id in s.threads {
      CausedStays(actions, n, id, s.threads[id]);
    }
  }

  lemma {:induction false} RunCaused(states: seq<State>, actions: seq<Action>, max: int, i: nat, id: nat)
    requires Run(states, actions, max) && i < |states| && id in states[i].threads
    ensures Caused(actions, i, id, states[i].threads[id])
  {
    if i > 0 {
      var s := states[i - 1];
      if id in s.threads {
        RunCaused(states, actions, max, i - 1, id);
        RunKeepsMode(states, actions, max, i - 1);
        assert ThreadMode(s.threads[id], max);
      }
      StepCaused(s, max, actions, i - 1, id);
    }
  }

  /**
   A pulse loop ends only when its context is cancelled, on a version error,
   or, for a reload, after a pulse at or beyond its end.
   */
  lemma EndsOnlyThen(states: seq<State>, actions: seq<Action>, max: int, i: nat, id: nat)
    requires Run(states, actions, max) && i < |states| && id in states[i].threads && !states[i].threads[id].goroutine
    ensures var t := states[i].threads[id];
      && (t.pc == Ended ==>
            Happened(actions, i, Cancel(id)) || (!t.main && Happened(actions, i, Receive(id, NewPulse(true)))))
      && (t.pc == Refused ==> Happened(actions, i, Receive(id, VersionError)))
  {
    RunCaused(states, actions, max, i, id);
  }

  /** With at most three slots goroutines are the main thread's, with more no reload fetches itself. */
  ghost predicate ModeKept(s: State, max: int) {
    forall id :: id in s.threads ==> ThreadMode(s.threads[id], max)
  }

  predicate ThreadMode(t: Thread, max: int) {
    && (max <= 3 && t.goroutine ==> t.main)
    && (max <= 3 && t.pc.Spawning? ==> t.main)
    && ((t.main || max > 3) && (t.pc.Fetching? || t.pc.Deferred?) ==> t.goroutine)
    && (t.goroutine ==> t.pc.Fetching? || t.pc.Deferred? || t.pc == Ended)
  }

  lemma {:induction false} RunKeepsMode(states: seq<State>, actions: seq<Action>, max: int, i: nat)
    requires Run(states, actions, max) && i < |states|
    ensures ModeKept(states[i], max)
  {
    if i > 0 {
      RunKeepsMode(states, actions, max, i - 1);
      var s, a := states[i - 1], actions[i - 1];
      forall id | id in Apply(s, max, a).threads ensures ThreadMode(Apply(s, max, a).threads[id], max) {
        assert id in s.threads ==> ThreadMode(s.threads[id], max);
        assert a.Spawn? ==> ThreadMode(s.threads[a.id], max);
      }
    }
  }

  // ---------------------------------------------------------------------
  // Running out of slots
  // ---------------------------------------------------------------------

  lemma {:induction false} RefusedStay(states: seq<State>, actions: seq<Action>, max: int, i: nat, j: nat)
    requires Run(states, actions, max) && i <= j < |states|
    ensures RefusedReloads(states[i]) <= RefusedReloads(states[j])
  {
    if i < j {
      RefusedStay(states, actions, max, i, j - 1);
    }
  }

  lemma HoldsOutstanding(s: State, id: nat)
    requires HandsRight(s) && SlotsHeld(s) && id in s.threads && Owned(s.threads[id].main, s.threads[id].pc) == 1
    ensures s.threads[id].hands != {} && s.threads[id].hands <= Outstanding(s)
  {
    assert HandRight(s.threads[id]);
    forall slot | slot in s.threads[id].hands ensures slot in Outstanding(s) {
      assert Has(s, id, slot);
    }
  }

  lemma OwnersBound(s: State, ids: set<nat>)
    requires HandsRight(s) && SlotsHeld(s)
    requires forall id :: id in ids ==> id in s.threads && Owned(s.threads[id].main, s.threads[id].pc) == 1
    ensures |ids| <= |Outstanding(s)|
  {
    forall id | id in ids ensures s.threads[id].hands != {} && s.threads[id].hands <= Outstanding(s) {
      HoldsOutstanding(s, id);
    }
    HoldersBound(s, ids, Outstanding(s));
  }

  lemma NoneLeft(s: State, max: int, refused: set<nat>, id: nat)
    requires Balanced(s, max) && refused <= RefusedReloads(s) && |refused| == max
    requires id in s.threads && Owned(s.threads[id].main, s.threads[id].pc) == 1
    ensures id in refused
  {
    OwnersBound(s, refused + {id});
  }

  /**
   After as many version errors in reloads as there are slots, no reload and
   no goroutine of one ever gets past the spin again.
   */
  lemma Starved(states: seq<State>, actions: seq<Action>, max: int, i: nat, j: nat, id: nat)
    requires Run(states, actions, max) && i <= j < |states| && |RefusedReloads(states[i])| == max
    requires id in states[j].threads
    ensures var t := states[j].threads[id]; Owned(t.main, t.pc) == 1 ==> t.pc == Refused
  {
    RunBalanced(states, actions, max, j);
    RefusedStay(states, actions, max, i, j);
    var t := states[j].threads[id];
    if Owned(t.main, t.pc) == 1 {
      NoneLeft(states[j], max, RefusedReloads(states[i]), id);
    }
  }

  function RefusedThread(slot: nat): Thread {
    Thread(false, false, Refused, {slot})
  }

  /** `n` reloads have met a version error, each in its first round. */
  function AllRefused(n: nat): State {
    State(n, map id: nat | 0 <= id < n :: RefusedThread(id), n, {})
  }

  lemma OneMoreRefused(n: nat, max: int) returns (states: seq<State>, actions: seq<Action>)
    requires n < max
    ensures Steps(states, actions, max) && states[0] == AllRefused(n) && states[|actions|] == AllRefused(n + 1)
  {
    var s0 := AllRefused(n);
    var s1 := Apply(s0, max, Start(n, false));
    var s2 := Apply(s1, max, Begin(n));
    var s3 := Apply(s2, max, Take(n));
    var s4 := Apply(s3, max, Receive(n, VersionError));
    assert {} + {n} == {n};
    assert s4.threads == s0.threads[n := RefusedThread(n)];
    actions := [Start(n, false), Begin(n), Take(n), Receive(n, VersionError)];
    states := [s0, s1, s2, s3, s4];
  }

  lemma {:induction false} ReachRefused(n: nat, max: int) returns (states: seq<State>, actions: seq<Action>)
    requires n <= max || n == 0
    ensures Run(states, actions, max) && states[|actions|] == AllRefused(n)
  {
    if n == 0 {
      states, actions := [Init()], [];
    } else {
      var states1, actions1 := ReachRefused(n - 1, max);
      var states2, actions2 := OneMoreRefused(n - 1, max);
      states, actions := states1[..|actions1|] + states2, actions1 + actions2;
      StepsConcat(states1, actions1, states2, actions2, max);
    }
  }

  lemma StepsConcat(a: seq<State>, x: seq<Action>, b: seq<State>, y: seq<Action>, max: int)
    requires Steps(a, x, max) && Steps(b, y, max) && a[|x|] == b[0]
    ensures Steps(a[..|x|] + b, x + y, max)
  {
    var states, actions := a[..|x|] + b, x + y;
    forall i | 0 <= i < |actions|
      ensures Enabled(states[i], actions[i]) && states[i + 1] == Apply(states[i], max, actions[i])
    {
      if i < |x| {
        assert states[i] == a[i] && states[i + 1] == a[i + 1];
      } else {
        assert states[i] == b[i - |x|] && states[i + 1] == b[i - |x| + 1];
      }
    }
  }

  /** For every number of slots some run loses them all. */
  lemma StarvationHappens(max: nat) returns (states: seq<State>, actions: seq<Action>)
    ensures Run(states, actions, max) && |RefusedReloads(states[|actions|])| == max
  {
    states, actions := ReachRefused(max, max);
    RefusedCount(max);
  }

  lemma {:induction false} RefusedCount(n: nat)
    ensures |RefusedReloads(AllRefused(n))| == n
  {
    if n > 0 {
      RefusedCount(n - 1);
      assert RefusedReloads(AllRefused(n)) == RefusedReloads(AllRefused(n - 1)) + {n - 1};
    }
  }
}
