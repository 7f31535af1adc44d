/**
 The processor: one jet drop from the transformer to the tables and the
 controller's register.
 */
module Processor {
  import opened Records
  import opened SortTheorems
  import opened Transformer
  import T = Tables
  import S = Storage
  import P = Pipeline
  import C = Controller
  import Counters

  /** The i-th record of a drop becomes a row with order i, keyed by its raw reference. */
  function Rows(key: T.DropKey, rs: seq<Record>): (rows: seq<T.Record>)
    ensures |rows| == |rs| && forall i :: 0 <= i < |rs| ==> rows[i] == T.Record(rs[i].raw, key, i, rs[i])
  {
    seq(|rs|, i requires 0 <= i < |rs| => T.Record(rs[i].raw, key, i, rs[i]))
  }

  /** The jet drop as a task of the pipeline. */
  function TaskOf(key: P.PulseKey, drop: JetDrop): P.Task {
    P.Task(key, drop.prefix, T.Drop(drop.hash, |drop.records|),
           Rows(T.DropKey(key.no, drop.prefix), drop.records), P.Received)
  }

  /** The same as operations on the storage. */
  function PulseOf(key: P.PulseKey): Counters.Op {
    Counters.PulseSaved(key.no, key.prev, key.next, key.timestamp)
  }

  function Delivery(pulse: int, drop: JetDrop): Counters.Op {
    var key := T.DropKey(pulse, drop.prefix);
    Counters.DropSaved(key, T.Drop(drop.hash, |drop.records|), Rows(key, drop.records))
  }

  /** What a task stores is one step of the runs of saves. */
  lemma StoredIsApplied(db: T.Db, key: P.PulseKey, drop: JetDrop)
    ensures Stored(db, TaskOf(key, drop)).db ==
      Counters.Apply(Counters.Apply(db, PulseOf(key)), Delivery(key.no, drop))
  {
  }

  lemma DropStored(db: T.Db, key: P.PulseKey, drop: JetDrop)
    ensures var after := Stored(db, TaskOf(key, drop)).db;
      && after.drops == db.drops[T.DropKey(key.no, drop.prefix) := T.Drop(drop.hash, |drop.records|)]
      && key.no in after.pulses && after.pulses[key.no].prev == key.prev
      && after.pulses[key.no].next == key.next && after.pulses[key.no].timestamp == key.timestamp
      && (key.no !in db.pulses ==> !after.pulses[key.no].complete && !after.pulses[key.no].sequential)
  {
    var t := TaskOf(key, drop);
    ProcessSucceeds(db, key, drop);
    T.DropEffect(T.SavePulse(db, key.no, P.TaskPulse(t)), T.DropKey(key.no, drop.prefix), t.drop, t.records, key.no);
  }

  lemma {:induction false} LastRow(rows: seq<T.Record>, i: nat)
    requires i < |rows| && forall j :: i < j < |rows| ==> rows[j].reference != rows[i].reference
    ensures Counters.LastWith(rows, rows[i].reference) == [rows[i]]
  {
    var n := |rows| - 1;
    if i < n {
      LastRow(rows[..n], i);
    }
  }

  /** The last record under a raw reference is the row left there, with its position as order. */
  ghost predicate RecordStored(records: map<string, T.Record>, key: T.DropKey, rs: seq<Record>, i: nat)
    requires i < |rs|
  {
    (forall j :: i < j < |rs| ==> rs[j].raw != rs[i].raw) ==>
      rs[i].raw in records && records[rs[i].raw] == T.Record(rs[i].raw, key, i, rs[i])
  }

  lemma RecordsStored(db: T.Db, key: P.PulseKey, drop: JetDrop, i: nat)
    requires i < |drop.records|
    ensures RecordStored(Stored(db, TaskOf(key, drop)).db.records, T.DropKey(key.no, drop.prefix), drop.records, i)
  {
    var t, dropKey, rs := TaskOf(key, drop), T.DropKey(key.no, drop.prefix), drop.records;
    ProcessSucceeds(db, key, drop);
    if forall j :: i < j < |rs| ==> rs[j].raw != rs[i].raw {
      var before := T.SavePulse(db, key.no, P.TaskPulse(t));
      LastRow(t.records, i);
      Counters.SaveLookup(before.(drops := before.drops[dropKey := t.drop]), t.records, rs[i].raw);
    }
  }

  /** The tables after a task has stored its pulse and its drop. */
  function Stored(db: T.Db, t: P.Task): T.Saved {
    P.StoreTaskDrop(T.SavePulse(db, t.key.no, P.TaskPulse(t)), t)
  }

  lemma {:induction false} RowsSave(db: T.Db, key: T.DropKey, rows: seq<T.Record>)
    requires key in db.drops && forall i :: 0 <= i < |rows| ==> rows[i].drop == key
    ensures T.SaveRecords(db, rows).ok
  {
    if rows != [] {
      RowsSave(db, key, rows[..|rows| - 1]);
    }
  }

  /** Saving the pulse first satisfies every key constraint of its drop. */
  lemma ProcessSucceeds(db: T.Db, key: P.PulseKey, drop: JetDrop)
    ensures Stored(db, TaskOf(key, drop)).ok
  {
    var t := TaskOf(key, drop);
    var k := T.DropKey(key.no, drop.prefix);
    var before := T.SavePulse(db, key.no, P.TaskPulse(t));
    RowsSave(before.(drops := before.drops[k := t.drop]), k, t.records);
  }

  /**
   The three writes of one jet drop, in the source's order.  Run without
   interruption they are the pipeline's actions StorePulse, StoreDrop, Notify.
   */
  method Process(storage: S.Storage, controller: C.Controller, key: P.PulseKey, drop: JetDrop) returns (ok: bool)
    modifies storage, controller`register
    ensures ok && storage.Tables() ==
      Counters.Apply(Counters.Apply(old(storage.Tables()), PulseOf(key)), Delivery(key.no, drop))
    ensures storage.Tables() == Stored(old(storage.Tables()), TaskOf(key, drop)).db
    ensures storage.drops == old(storage.drops)[T.DropKey(key.no, drop.prefix) := T.Drop(drop.hash, |drop.records|)]
    ensures key.no in storage.pulses && storage.pulses[key.no].prev == key.prev
    ensures storage.pulses[key.no].next == key.next && storage.pulses[key.no].timestamp == key.timestamp
    ensures forall i :: 0 <= i < |drop.records| ==>
      RecordStored(storage.records, T.DropKey(key.no, drop.prefix), drop.records, i)
    ensures key.no !in old(storage.pulses) ==>
      !storage.pulses[key.no].complete && !storage.pulses[key.no].sequential
    ensures controller.register == P.SetJetDropData(old(controller.register), key, drop.prefix)
  {
    ghost var start := storage.Tables();
    storage.SavePulse(key.no, T.Pulse(key.prev, key.next, false, false, key.timestamp, 0, 0));
    var dropKey, rs := T.DropKey(key.no, drop.prefix), drop.records;
    var rows: seq<T.Record> := [];
    for i := 0 to |rs|
      invariant |rows| == i
      invariant forall k :: 0 <= k < i ==> rows[k] == T.Record(rs[k].raw, dropKey, k, rs[k])
    {
      rows := rows + [T.Record(rs[i].raw, dropKey, i, rs[i])];
    }
    assert rows == Rows(dropKey, rs);
    ok := storage.SaveJetDropData(dropKey, T.Drop(drop.hash, |rs|), rows, key.no);
    ProcessSucceeds(start, key, drop);
    StoredIsApplied(start, key, drop);
    DropStored(start, key, drop);
    forall i | 0 <= i < |rs| ensures RecordStored(storage.records, dropKey, rs, i) {
      RecordsStored(start, key, drop, i);
    }
    controller.SetJetDropData(key, drop.prefix);
  }

  /** The actions a worker takes for a task in a free slot, starting from `s`. */
  lemma ProcessIsThreeActions(s: P.State, id: nat, key: P.PulseKey, drop: JetDrop)
    requires id !in s.tasks
    ensures var t := TaskOf(key, drop);
      var s1 := P.Apply(P.Apply(s, P.Receive(id, t)), P.StorePulse(id));
      var s3 := P.Apply(P.Apply(s1, P.StoreDrop(id)), P.Notify(id));
      s3 == s.(db := Stored(s.db, t).db, register := P.SetJetDropData(s.register, key, drop.prefix))
  {
    var t := TaskOf(key, drop);
    ProcessSucceeds(s.db, key, drop);
    var s1 := P.Apply(P.Apply(s, P.Receive(id, t)), P.StorePulse(id));
    assert s1.tasks[id] == t.(stage := P.PulseStored);
    assert P.StoreTaskDrop(s1.db, s1.tasks[id]) == Stored(s.db, t);
    var s2 := P.Apply(s1, P.StoreDrop(id));
    assert s2.tasks - {id} == s.tasks;
  }

  // ---------------------------------------------------------------------
  // The stored lifeline
  // ---------------------------------------------------------------------

  /** The ascending lifeline order: by pulse number, then by order. */
  predicate Before(a: T.Record, b: T.Record) {
    a.drop.pulse < b.drop.pulse || (a.drop.pulse == b.drop.pulse && a.order < b.order)
  }

  /** Pulses decide first, and within a pulse the orders do. */
  lemma BeforeIsLexicographic(a: T.Record, b: T.Record)
    ensures a.drop.pulse != b.drop.pulse ==> (Before(a, b) <==> a.drop.pulse < b.drop.pulse)
    ensures a.drop.pulse == b.drop.pulse ==> (Before(a, b) <==> a.order < b.order)
  {
  }

  ghost function Contents(rows: seq<T.Record>): seq<Record> {
    seq(|rows|, i requires 0 <= i < |rows| => rows[i].content)
  }

  /**
   The whole way of one listed jet: the rows stored for it are its supported
   records, once each, and an ascending lifeline lists every predecessor first.
   */
  lemma StoredLifeline(data: PulseData, jet: nat, drop: JetDrop, key: P.PulseKey)
    requires EmittedAt(data, drop, jet) && RefIdentity(RecordsOf(data.records, data.jets[jet].id))
    ensures var rows := TaskOf(key, drop).records;
      && Permutation(Contents(rows), RecordsOf(data.records, data.jets[jet].id))
      && forall a, b :: a in rows && b in rows && Precedes(a.content, b.content) && a != b ==> Before(a, b)
  {
    var rows := TaskOf(key, drop).records;
    assert Contents(rows) == drop.records;
    forall a, b | a in rows && b in rows && Precedes(a.content, b.content) && a != b ensures Before(a, b) {
      var i, j := a.order, b.order;
      assert rows[i] == a && rows[j] == b && i != j;
    }
  }
}
