/**
 The records table after any run of deliveries, and the lifeline read from it.
 */
module Lifeline {
  import opened Common
  import opened Records
  import opened Transformer
  import opened SortTheorems
  import opened Processor
  import opened Counters
  import T = Tables

  /** A delivery of the drop that the transformer emitted for a listed jet. */
  ghost predicate DeliveryOf(op: Op, pulse: int, data: PulseData, jet: nat, drop: JetDrop) {
    && EmittedAt(data, drop, jet) && RefIdentity(RecordsOf(data.records, data.jets[jet].id))
    && op == Delivery(pulse, drop)
  }

  ghost predicate FromTransformer(op: Op) {
    exists pulse, data, jet, drop :: DeliveryOf(op, pulse, data, jet, drop)
  }

  ghost predicate UniqueReferences(rs: seq<T.Record>) {
    forall i, j :: 0 <= i < j < |rs| ==> rs[i].reference != rs[j].reference
  }

  predicate Mentions(op: Op, ref: string)
    requires op.DropSaved?
  {
    exists r :: r in op.records && r.reference == ref
  }

  /** Deliveries of one drop bring the same references, in any order and with any content. */
  ghost predicate SameReferences(ops: seq<Op>) {
    forall a, b, ref :: a in ops && b in ops && a.DropSaved? && b.DropSaved? && a.key == b.key && Mentions(a, ref) ==>
      Mentions(b, ref)
  }

  /** Every reference belongs to one drop and occurs in each of its deliveries at most once. */
  ghost predicate Owned(ops: seq<Op>) {
    && SingleOwner(ops)
    && forall op :: op in ops && op.DropSaved? ==> FromTransformer(op) && UniqueReferences(op.records)
  }

  /** What the platform promises. */
  ghost predicate Genuine(ops: seq<Op>) {
    Owned(ops) && SameReferences(ops)
  }

  /** Row i of an emitted drop belongs to it and has order i. */
  ghost predicate Numbered(op: Op)
    requires op.DropSaved?
  {
    forall i :: 0 <= i < |op.records| ==> op.records[i].drop == op.key && op.records[i].order == i
  }

  ghost predicate Sorted(op: Op)
    requires op.DropSaved?
  {
    forall i, j :: 0 <= i < |op.records| && 0 <= j < |op.records| && i != j ==>
      (Precedes(op.records[i].content, op.records[j].content) ==> i < j)
  }

  // ---------------------------------------------------------------------
  // The table
  // ---------------------------------------------------------------------

  /** A stored row is a row of a delivery of a stored drop, under its own reference. */
  ghost predicate RowDelivered(db: T.Db, ops: seq<Op>, ref: string)
    requires ref in db.records
  {
    exists op :: op in ops && op.DropSaved? && op.key in db.drops
      && db.records[ref] in op.records && db.records[ref].reference == ref
  }

  lemma RowKept(db: T.Db, db': T.Db, ops: seq<Op>, last: Op, ref: string)
    requires ref in db.records && ref in db'.records && db'.records[ref] == db.records[ref]
    requires RowDelivered(db, ops, ref) && forall k :: k in db.drops ==> k in db'.drops
    ensures RowDelivered(db', ops + [last], ref)
  {
    var op :| op in ops && op.DropSaved? && op.key in db.drops
      && db.records[ref] in op.records && db.records[ref].reference == ref;
    assert op in ops + [last];
  }

  lemma LastIsOne(rs: seq<T.Record>, ref: string)
    requires LastWith(rs, ref) != []
    ensures LastWith(rs, ref)[0] in rs && LastWith(rs, ref)[0].reference == ref
  {
  }

  lemma RowAfterDrop(db: T.Db, ops: seq<Op>, last: Op, ref: string)
    requires last.DropSaved? && ref in Apply(db, last).records
    requires forall r :: r in db.records ==> RowDelivered(db, ops, r)
    ensures RowDelivered(Apply(db, last), ops + [last], ref)
  {
    var db' := Apply(db, last);
    T.DropEffect(db, last.key, last.drop, last.records, last.key.pulse);
    if T.SaveJetDropData(db, last.key, last.drop, last.records, last.key.pulse).ok {
      SaveLookup(db.(drops := db.drops[last.key := last.drop]), last.records, ref);
      if LastWith(last.records, ref) != [] {
        LastIsOne(last.records, ref);
        assert last in ops + [last];
        return;
      }
    }
    RowKept(db, db', ops, last, ref);
  }

  lemma {:induction false} RowsDelivered(ops: seq<Op>, ref: string)
    requires ref in Replay(ops).records
    ensures RowDelivered(Replay(ops), ops, ref)
  {
    var m := |ops| - 1;
    var before, last := ops[..m], ops[m];
    assert ops == before + [last];
    forall r | r in Replay(before).records ensures RowDelivered(Replay(before), before, r) {
      RowsDelivered(before, r);
    }
    if last.DropSaved? {
      RowAfterDrop(Replay(before), before, last, ref);
    } else {
      RowKept(Replay(before), Replay(ops), before, last, ref);
    }
  }

  lemma {:induction false} LastOfUnique(rs: seq<T.Record>, i: nat)
    requires UniqueReferences(rs) && i < |rs|
    ensures LastWith(rs, rs[i].reference) == [rs[i]]
  {
    var n := |rs| - 1;
    if i < n {
      LastOfUnique(rs[..n], i);
    }
  }

  lemma EmittedRows(op: Op)
    requires op.DropSaved? && FromTransformer(op)
    ensures Numbered(op) && Sorted(op)
  {
    var pulse, data, jet, drop :| DeliveryOf(op, pulse, data, jet, drop);
    assert PredecessorsFirst(drop.records);
    forall i, j | 0 <= i < |op.records| && 0 <= j < |op.records| && i != j
      && Precedes(op.records[i].content, op.records[j].content)
      ensures i < j
    {
      assert Precedes(drop.records[i], drop.records[j]);
    }
  }

  /** The latest accepted delivery of a drop. */
  ghost function Latest(ops: seq<Op>, key: T.DropKey): Option<Op> {
    if ops == [] then None else
      var last, before := ops[|ops| - 1], ops[..|ops| - 1];
      if Accepted(Replay(before), last) && last.key == key then Some(last) else Latest(before, key)
  }

  /** The tables hold the drop of `op` and all its rows. */
  ghost predicate Held(db: T.Db, op: Op)
    requires op.DropSaved?
  {
    op.key in db.drops && db.drops[op.key] == op.drop && Settled(db, op.records)
  }

  /** And no other rows of it. */
  ghost predicate Current(db: T.Db, op: Op)
    requires op.DropSaved?
  {
    Held(db, op) && forall ref :: ref in db.records && db.records[ref].drop == op.key ==> db.records[ref] in op.records
  }

  ghost predicate HeldAt(ops: seq<Op>, key: T.DropKey) {
    match Latest(ops, key)
    case None => key !in Replay(ops).drops
    case Some(op) => op in ops && op.DropSaved? && op.key == key && Held(Replay(ops), op)
  }

  lemma OwnedPrefix(ops: seq<Op>, m: nat)
    requires Owned(ops) && m <= |ops|
    ensures Owned(ops[..m])
  {
    assert forall op :: op in ops[..m] ==> op in ops;
  }

  lemma Rejected(db: T.Db, last: Op)
    requires !Accepted(db, last)
    ensures Apply(db, last).records == db.records && Apply(db, last).drops == db.drops
  {
    if last.DropSaved? {
      T.DropEffect(db, last.key, last.drop, last.records, last.key.pulse);
    }
  }

  lemma AcceptedDrops(db: T.Db, last: Op)
    requires Accepted(db, last)
    ensures Apply(db, last).drops == db.drops[last.key := last.drop]
  {
    T.DropEffect(db, last.key, last.drop, last.records, last.key.pulse);
  }

  /** Deliveries of other drops leave a held drop alone. */
  lemma StepHeld(db: T.Db, op: Op, last: Op)
    requires op.DropSaved? && Held(db, op) && !(Accepted(db, last) && last.key == op.key)
    requires Accepted(db, last) ==> Disjoint(op, last)
    ensures Held(Apply(db, last), op)
  {
    if Accepted(db, last) {
      AcceptedDrops(db, last);
      SettledAfterDrop(db, last, op);
    } else {
      Rejected(db, last);
      SettledSame(db, Apply(db, last), op.records);
    }
  }

  lemma OtherStep(ops: seq<Op>, before: seq<Op>, last: Op, key: T.DropKey)
    requires ops == before + [last] && Owned(ops) && HeldAt(before, key)
    requires !(Accepted(Replay(before), last) && last.key == key)
    ensures HeldAt(ops, key)
  {
    var db := Replay(before);
    assert ops[..|before|] == before && Replay(ops) == Apply(db, last) && last in ops;
    assert Latest(ops, key) == Latest(before, key);
    if Latest(before, key).None? {
      if Accepted(db, last) {
        AcceptedDrops(db, last);
      } else {
        Rejected(db, last);
      }
    } else {
      var op := Latest(before, key).value;
      assert op in ops;
      assert Accepted(db, last) ==> Disjoint(op, last);
      StepHeld(db, op, last);
    }
  }

  /** In every run each stored drop holds all rows of its latest accepted delivery. */
  lemma {:induction false} RunHeld(ops: seq<Op>, key: T.DropKey)
    requires Owned(ops)
    ensures HeldAt(ops, key)
  {
    if ops != [] {
      var m := |ops| - 1;
      var before, last := ops[..m], ops[m];
      assert ops == before + [last];
      OwnedPrefix(ops, m);
      RunHeld(before, key);
      if Accepted(Replay(before), last) && last.key == key {
        AcceptedDrops(Replay(before), last);
        SettledAfterDrop(Replay(before), last, last);
      } else {
        OtherStep(ops, before, last, key);
      }
    }
  }

  /** The references that accepted deliveries of a drop have brought so far. */
  ghost function Brought(ops: seq<Op>, key: T.DropKey): set<string> {
    if ops == [] then {} else
      var last, before := ops[|ops| - 1], ops[..|ops| - 1];
      Brought(before, key) +
      if Accepted(Replay(before), last) && last.key == key then set r | r in last.records :: r.reference else {}
  }

  lemma {:induction false} BroughtBy(ops: seq<Op>, key: T.DropKey, ref: string)
    requires ref in Brought(ops, key)
    ensures exists op :: op in ops && op.DropSaved? && op.key == key && Mentions(op, ref)
  {
    var m := |ops| - 1;
    var last := ops[m];
    if ref in Brought(ops[..m], key) {
      BroughtBy(ops[..m], key, ref);
      var op :| op in ops[..m] && op.DropSaved? && op.key == key && Mentions(op, ref);
      assert op in ops;
    } else {
      assert last in ops && Mentions(last, ref);
    }
  }

  /** Whose row stands under a reference after an accepted delivery. */
  lemma LookupAfter(db: T.Db, last: Op, ref: string)
    requires Accepted(db, last) && Numbered(last)
    ensures var after := Apply(db, last).records;
      if Mentions(last, ref) then ref in after && after[ref].drop == last.key
      else (ref in after <==> ref in db.records) && (ref in after ==> after[ref] == db.records[ref])
  {
    SaveLookup(db.(drops := db.drops[last.key := last.drop]), last.records, ref);
    LastIsMember(last.records, ref);
    if LastWith(last.records, ref) != [] {
      LastIsOne(last.records, ref);
    }
  }

  lemma NotBoth(a: Op, b: Op, ref: string)
    requires a.DropSaved? && b.DropSaved? && Disjoint(a, b) && Mentions(b, ref)
    ensures !Mentions(a, ref)
  {
  }

  lemma BroughtElsewhere(before: seq<Op>, last: Op, key: T.DropKey, ref: string)
    requires last.DropSaved? && last.key != key && Mentions(last, ref)
    requires forall op :: op in before && op.DropSaved? && op.key == key ==> Disjoint(op, last)
    ensures ref !in Brought(before, key)
  {
    forall op | op in before && op.DropSaved? && op.key == key ensures !Mentions(op, ref) {
      NotBoth(op, last, ref);
    }
    if ref in Brought(before, key) {
      BroughtBy(before, key, ref);
    }
  }

  /** A drop has a row under exactly the references brought for it, stale ones included. */
  lemma {:induction false} BroughtStored(ops: seq<Op>, key: T.DropKey, ref: string)
    requires Owned(ops)
    ensures var records := Replay(ops).records;
      ref in Brought(ops, key) <==> ref in records && records[ref].drop == key
  {
    if ops != [] {
      var m := |ops| - 1;
      var before, last := ops[..m], ops[m];
      assert ops == before + [last] && last in ops;
      OwnedPrefix(ops, m);
      BroughtStored(before, key, ref);
      if Accepted(Replay(before), last) {
        EmittedRows(last);
        LookupAfter(Replay(before), last, ref);
        if last.key != key && Mentions(last, ref) {
          BroughtElsewhere(before, last, key, ref);
        }
      } else {
        Rejected(Replay(before), last);
      }
    }
  }

  /**
   Whatever re-deliveries bring: a drop's stored rows are those of its latest
   delivery and no others, exactly if that delivery brings every reference that
   an earlier one brought.
   */
  lemma NothingStale(ops: seq<Op>, op: Op)
    requires Owned(ops) && op.DropSaved? && Latest(ops, op.key) == Some(op)
    ensures Held(Replay(ops), op)
    ensures Current(Replay(ops), op) <==> forall ref :: ref in Brought(ops, op.key) ==> Mentions(op, ref)
  {
    var db := Replay(ops);
    RunHeld(ops, op.key);
    if forall ref :: ref in Brought(ops, op.key) ==> Mentions(op, ref) {
      forall ref | ref in db.records && db.records[ref].drop == op.key ensures db.records[ref] in op.records {
        BroughtStored(ops, op.key, ref);
        LastIsMember(op.records, ref);
        assert Holds(db, op.records, ref);
        LastIsOne(op.records, ref);
      }
    }
    if Current(db, op) {
      forall ref | ref in Brought(ops, op.key) ensures Mentions(op, ref) {
        BroughtStored(ops, op.key, ref);
        StoredReference(ops, ref);
      }
    }
  }

  lemma StoredReference(ops: seq<Op>, ref: string)
    requires ref in Replay(ops).records
    ensures Replay(ops).records[ref].reference == ref
  {
    RowsDelivered(ops, ref);
  }

  ghost predicate CurrentAt(ops: seq<Op>, key: T.DropKey) {
    HeldAt(ops, key) && (Latest(ops, key).Some? ==> Current(Replay(ops), Latest(ops, key).value))
  }

  /** With the same references in all deliveries nothing is stale. */
  lemma RunCurrent(ops: seq<Op>, key: T.DropKey)
    requires Genuine(ops)
    ensures CurrentAt(ops, key)
  {
    RunHeld(ops, key);
    if Latest(ops, key).Some? {
      var op := Latest(ops, key).value;
      forall ref | ref in Brought(ops, key) ensures Mentions(op, ref) {
        BroughtBy(ops, key, ref);
      }
      NothingStale(ops, op);
    }
  }

  predicate InTable(db: T.Db, row: T.Record) {
    row.reference in db.records && db.records[row.reference] == row
  }

  /**
   With re-deliveries in any block order and with any content: a drop is stored
   exactly if a delivery of it was accepted, and its stored rows are exactly
   the rows of the latest one.
   */
  lemma TableIsDeliveries(ops: seq<Op>, key: T.DropKey, row: T.Record)
    requires Genuine(ops)
    ensures var latest := Latest(ops, key);
      && (latest.Some? <==> key in Replay(ops).drops)
      && (latest.Some? ==>
            && latest.value in ops && latest.value.DropSaved? && latest.value.key == key
            && Replay(ops).drops[key] == latest.value.drop
            && (row in latest.value.records <==> row.drop == key && InTable(Replay(ops), row)))
  {
    var db := Replay(ops);
    RunCurrent(ops, key);
    if Latest(ops, key).Some? {
      var op := Latest(ops, key).value;
      EmittedRows(op);
      if row in op.records {
        var i :| 0 <= i < |op.records| && op.records[i] == row;
        LastOfUnique(op.records, i);
        assert Holds(db, op.records, row.reference);
      }
    }
  }

  // ---------------------------------------------------------------------
  // Lifelines
  // ---------------------------------------------------------------------

  /** A state and its successor in different drops: the successor's pulse is later. */
  ghost predicate Causal(ops: seq<Op>) {
    forall x, y :: x in ops && y in ops && x.DropSaved? && y.DropSaved? && x.key != y.key ==> CausalPair(x, y)
  }

  ghost predicate CausalPair(x: Op, y: Op)
    requires x.DropSaved? && y.DropSaved?
  {
    forall a, b :: a in x.records && b in y.records && Precedes(a.content, b.content) ==> x.key.pulse < y.key.pulse
  }

  lemma RowsDrop(ops: seq<Op>, row: T.Record)
    requires Genuine(ops) && InTable(Replay(ops), row)
    ensures row.drop in Replay(ops).drops
  {
    RowsDelivered(ops, row.reference);
    var op :| op in ops && op.DropSaved? && op.key in Replay(ops).drops && row in op.records;
    EmittedRows(op);
  }

  lemma StoredRow(ops: seq<Op>, row: T.Record) returns (op: Op)
    requires Genuine(ops) && InTable(Replay(ops), row)
    ensures Latest(ops, row.drop) == Some(op) && op in ops && op.DropSaved? && op.key == row.drop
    ensures row in op.records && Numbered(op) && Sorted(op)
  {
    RowsDrop(ops, row);
    TableIsDeliveries(ops, row.drop, row);
    op := Latest(ops, row.drop).value;
    EmittedRows(op);
  }

  /** In the table a predecessor comes before its successor, across drops, pulses and re-deliveries. */
  lemma PredecessorsStoredFirst(ops: seq<Op>, a: T.Record, b: T.Record)
    requires Genuine(ops) && Causal(ops) && InTable(Replay(ops), a) && InTable(Replay(ops), b)
    requires Precedes(a.content, b.content) && a != b
    ensures Before(a, b)
  {
    var x := StoredRow(ops, a);
    var y := StoredRow(ops, b);
    if x.key == y.key {
      var i :| 0 <= i < |x.records| && x.records[i] == a;
      var j :| 0 <= j < |x.records| && x.records[j] == b;
      assert i < j;
    } else {
      assert CausalPair(x, y);
    }
  }

  /** An ascending listing of the stored states of an object. */
  ghost predicate IsLifeline(db: T.Db, obj: Id, rows: seq<T.Record>) {
    && NoDuplicates(rows)
    && (forall r :: r in rows <==> InTable(db, r) && r.content.kind == STATE && r.content.obj == obj)
    && (forall i, j :: 0 <= i < j < |rows| ==> !Before(rows[j], rows[i]))
  }

  /** Reading an object's lifeline lists every state after its predecessor. */
  lemma LifelineInOrder(ops: seq<Op>, obj: Id, rows: seq<T.Record>, i: nat, j: nat)
    requires Genuine(ops) && Causal(ops) && IsLifeline(Replay(ops), obj, rows)
    requires i < |rows| && j < |rows| && i != j && Precedes(rows[i].content, rows[j].content)
    ensures i < j
  {
    assert rows[i] in rows && rows[j] in rows;
    assert rows[i] != rows[j];
    PredecessorsStoredFirst(ops, rows[i], rows[j]);
  }
}
