/**
 Loading a drop again: its records are sorted anew, so another iteration order
 of the objects renumbers them.  When does that change the tables?
 */
module Redelivery {
  import opened Common
  import opened Records
  import opened SortRecords
  import opened SortTheorems
  import opened SortOrder
  import opened Transformer
  import opened Processor
  import opened Counters
  import opened Lifeline
  import T = Tables

  /** A drop the transformer may emit for a listed jet. */
  ghost predicate MayEmit(data: PulseData, drop: JetDrop, jet: nat) {
    EmittedAt(data, drop, jet) && SortedAt(data, drop, jet)
  }

  // ---------------------------------------------------------------------
  // One more delivery of a stored drop
  // ---------------------------------------------------------------------

  lemma NumberedWithin(a: Op, b: Op)
    requires a.DropSaved? && b.DropSaved? && Numbered(a) && Numbered(b)
    requires forall r :: r in a.records ==> r in b.records
    ensures a.records <= b.records
  {
    forall i | 0 <= i < |a.records| ensures i < |b.records| && a.records[i] == b.records[i] {
      assert a.records[i] in b.records;
    }
    if a.records != [] {
      assert a.records[|a.records| - 1] in b.records;
    }
  }

  lemma RepeatIsFixed(db: T.Db, latest: Op, op: Op)
    requires latest.DropSaved? && Current(db, latest) && op == latest
    ensures Apply(db, op) == db
  {
    assert db.drops[op.key := op.drop] == db.drops;
    SettledIsFixed(db, op.records);
  }

  /** Two deliveries that are both what a table holds are equal. */
  lemma CurrentIsUnique(db: T.Db, a: Op, b: Op)
    requires a.DropSaved? && b.DropSaved? && a.key == b.key && Current(db, a) && Current(db, b)
    requires Numbered(a) && Numbered(b) && UniqueReferences(a.records) && UniqueReferences(b.records)
    ensures a == b
  {
    CurrentWithin(db, a, b);
    CurrentWithin(db, b, a);
    NumberedWithin(a, b);
    NumberedWithin(b, a);
  }

  lemma CurrentWithin(db: T.Db, a: Op, b: Op)
    requires a.DropSaved? && b.DropSaved? && a.key == b.key && Current(db, a) && Current(db, b)
    requires Numbered(a) && UniqueReferences(a.records)
    ensures forall r :: r in a.records ==> r in b.records
  {
    forall i | 0 <= i < |a.records| ensures a.records[i] in b.records {
      LastOfUnique(a.records, i);
      assert Holds(db, a.records, a.records[i].reference);
    }
  }

  /** A delivery of a stored drop changes nothing exactly if it repeats the latest one. */
  lemma RepeatsLatest(ops: seq<Op>, op: Op)
    requires Genuine(ops + [op]) && op.DropSaved? && op.key in Replay(ops).drops
    ensures Apply(Replay(ops), op) == Replay(ops) <==> Latest(ops, op.key) == Some(op)
  {
    var all, db := ops + [op], Replay(ops);
    assert all[..|ops|] == ops && Replay(all) == Apply(db, op) && op in all;
    OwnedPrefix(all, |ops|);
    assert Genuine(ops);
    RunCurrent(ops, op.key);
    var latest := Latest(ops, op.key).value;
    assert latest in all;
    EmittedRows(latest);
    EmittedRows(op);
    KnownAccepted(db, op);
    RunCurrent(all, op.key);
    if op == latest {
      RepeatIsFixed(db, latest, op);
    }
    if Apply(db, op) == db {
      CurrentIsUnique(db, latest, op);
    }
  }

  lemma KnownAccepted(db: T.Db, op: Op)
    requires op.DropSaved? && op.key in db.drops && (forall r :: r in op.records ==> r.drop == op.key)
    ensures Accepted(db, op)
  {
    SaveOk(db.(drops := db.drops[op.key := op.drop]), op.records);
  }

  // ---------------------------------------------------------------------
  // Sorting the same records again
  // ---------------------------------------------------------------------

  ghost predicate DistinctRaws(rs: seq<Record>) {
    forall i, j :: 0 <= i < j < |rs| ==> rs[i].raw != rs[j].raw
  }

  lemma RawsPermuted(a: seq<Record>, b: seq<Record>)
    requires Permutation(a, b) && DistinctRaws(a)
    ensures DistinctRaws(b)
  {
    SameLength(a, b);
    assert NoDuplicates(a);
    forall i, j | 0 <= i < j < |b| ensures b[i].raw != b[j].raw {
      if b[i] == b[j] {
        TwoOccurrences(b, i, j);
        OneOccurrence(a, b[i]);
      } else {
        assert b[i] in a && b[j] in a;
      }
    }
  }

  /** Two results of sorting the same records of a listed jet. */
  lemma ResortedPermutes(data: PulseData, jet: nat, x: JetDrop, y: JetDrop)
    requires MayEmit(data, x, jet) && MayEmit(data, y, jet)
    requires RefIdentity(RecordsOf(data.records, data.jets[jet].id))
    ensures x.prefix == y.prefix && x.hash == y.hash && Permutation(x.records, y.records)
    ensures |x.records| == |y.records| && forall r :: r in x.records <==> r in y.records
  {
    SameLength(x.records, y.records);
  }

  lemma ResortedMentions(pulse: int, x: JetDrop, y: JetDrop, ref: string)
    requires forall r :: r in x.records ==> r in y.records
    requires Mentions(Delivery(pulse, x), ref)
    ensures Mentions(Delivery(pulse, y), ref)
  {
    var a, b := Delivery(pulse, x), Delivery(pulse, y);
    var row :| row in a.records && row.reference == ref;
    var i :| 0 <= i < |a.records| && a.records[i] == row;
    assert x.records[i] in y.records;
    var j :| 0 <= j < |y.records| && y.records[j] == x.records[i];
    assert b.records[j].reference == ref && b.records[j] in b.records;
  }

  /** The references of a drop do not depend on how it was sorted. */
  lemma ResortedGenuine(ops: seq<Op>, pulse: int, data: PulseData, jet: nat, x: JetDrop, y: JetDrop)
    requires Genuine(ops) && Delivery(pulse, x) in ops && MayEmit(data, x, jet) && MayEmit(data, y, jet)
    requires RefIdentity(RecordsOf(data.records, data.jets[jet].id))
    ensures Genuine(ops + [Delivery(pulse, y)])
  {
    var a, b := Delivery(pulse, x), Delivery(pulse, y);
    ResortedPermutes(data, jet, x, y);
    assert DeliveryOf(b, pulse, data, jet, y);
    ResortedUnique(pulse, x, y);
    forall ref ensures Mentions(a, ref) <==> Mentions(b, ref) {
      if Mentions(a, ref) {
        ResortedMentions(pulse, x, y, ref);
      }
      if Mentions(b, ref) {
        ResortedMentions(pulse, y, x, ref);
      }
    }
    GenuineSnoc(ops, a, b);
  }

  lemma ResortedUnique(pulse: int, x: JetDrop, y: JetDrop)
    requires Permutation(x.records, y.records) && UniqueReferences(Delivery(pulse, x).records)
    ensures UniqueReferences(Delivery(pulse, y).records)
  {
    var a := Delivery(pulse, x).records;
    forall i, j | 0 <= i < j < |x.records| ensures x.records[i].raw != x.records[j].raw {
      assert a[i].reference != a[j].reference;
    }
    RawsPermuted(x.records, y.records);
  }

  /** The same references as `a`, so disjoint from whatever `a` is disjoint from. */
  lemma DisjointLike(a: Op, b: Op, c: Op)
    requires a.DropSaved? && b.DropSaved? && c.DropSaved? && Disjoint(c, a)
    requires forall ref :: Mentions(b, ref) ==> Mentions(a, ref)
    ensures Disjoint(c, b) && Disjoint(b, c)
  {
    forall r, q | r in c.records && q in b.records ensures r.reference != q.reference {
      assert Mentions(b, q.reference);
      var p :| p in a.records && p.reference == q.reference;
    }
  }

  lemma OwnersSnoc(ops: seq<Op>, a: Op, b: Op)
    requires SingleOwner(ops) && a in ops && a.DropSaved? && b.DropSaved? && a.key == b.key
    requires forall ref :: Mentions(b, ref) ==> Mentions(a, ref)
    ensures SingleOwner(ops + [b])
  {
    var all := ops + [b];
    forall c, d | c in all && d in all && c.DropSaved? && d.DropSaved? && c.key != d.key ensures Disjoint(c, d) {
      if c in ops && d in ops {
        assert Disjoint(c, d);
      } else if c in ops {
        DisjointLike(a, b, c);
      } else {
        DisjointLike(a, b, d);
      }
    }
  }

  lemma ReferencesSnoc(ops: seq<Op>, a: Op, b: Op)
    requires SameReferences(ops) && a in ops && a.DropSaved? && b.DropSaved? && a.key == b.key
    requires forall ref :: Mentions(a, ref) <==> Mentions(b, ref)
    ensures SameReferences(ops + [b])
  {
    var all := ops + [b];
    forall c, d, ref | c in all && d in all && c.DropSaved? && d.DropSaved? && c.key == d.key && Mentions(c, ref)
      ensures Mentions(d, ref)
    {
      var c', d' := if c in ops then c else a, if d in ops then d else a;
      assert Mentions(c', ref);
      assert Mentions(d', ref);
    }
  }

  lemma GenuineSnoc(ops: seq<Op>, a: Op, b: Op)
    requires Genuine(ops) && a in ops && a.DropSaved? && b.DropSaved? && a.key == b.key
    requires forall ref :: Mentions(a, ref) <==> Mentions(b, ref)
    requires FromTransformer(b) && UniqueReferences(b.records)
    ensures Genuine(ops + [b])
  {
    OwnersSnoc(ops, a, b);
    ReferencesSnoc(ops, a, b);
  }

  lemma DeliveriesDiffer(pulse: int, x: JetDrop, y: JetDrop)
    requires Delivery(pulse, x) == Delivery(pulse, y)
    ensures x.records == y.records
  {
    var a, b := Delivery(pulse, x).records, Delivery(pulse, y).records;
    forall i | 0 <= i < |x.records| ensures i < |y.records| && x.records[i] == y.records[i] {
      assert a[i] == b[i];
    }
    assert |a| == |b|;
  }

  /** Loading a listed jet again, sorted in any way, leaves the tables alone. */
  ghost predicate ReloadsAlike(ops: seq<Op>, pulse: int, data: PulseData, jet: nat) {
    forall y :: MayEmit(data, y, jet) ==> Apply(Replay(ops), Delivery(pulse, y)) == Replay(ops)
  }

  lemma ReloadAlike(ops: seq<Op>, pulse: int, data: PulseData, jet: nat, x: JetDrop, y: JetDrop)
    requires Genuine(ops) && MayEmit(data, x, jet) && MayEmit(data, y, jet)
    requires RefIdentity(RecordsOf(data.records, data.jets[jet].id))
    requires Latest(ops, Delivery(pulse, x).key) == Some(Delivery(pulse, x))
    ensures Apply(Replay(ops), Delivery(pulse, y)) == Replay(ops) <==> x.records == y.records
  {
    RunCurrent(ops, Delivery(pulse, x).key);
    ResortedPermutes(data, jet, x, y);
    ResortedGenuine(ops, pulse, data, jet, x, y);
    RepeatsLatest(ops, Delivery(pulse, y));
    if Delivery(pulse, x) == Delivery(pulse, y) {
      DeliveriesDiffer(pulse, x, y);
    }
  }

  /** Every way of sorting a jet's records is one the transformer may emit. */
  lemma Emission(jet: Jet, rs: seq<Record>, ch: Choices) returns (drop: JetDrop)
    requires RefIdentity(rs) && ValidChoices(rs, ch) && SortWith(rs, ch).Ok?
    ensures DropOf(drop, jet, rs) && SortWith(rs, ch) == Ok(drop.records) && SortedTo(rs, drop.records)
  {
    SortedDrop(rs, ch);
    drop := JetDrop(if jet.id.valid then jet.id.prefix else "", SortWith(rs, ch).records, jet.hash, jet.prevDropHashes);
    SameLength(drop.records, rs);
  }

  lemma OtherEmission(data: PulseData, jet: nat, x: JetDrop, ch: Choices) returns (y: JetDrop)
    requires MayEmit(data, x, jet) && RefIdentity(RecordsOf(data.records, data.jets[jet].id))
    requires ValidChoices(RecordsOf(data.records, data.jets[jet].id), ch)
    ensures MayEmit(data, y, jet) && SortWith(RecordsOf(data.records, data.jets[jet].id), ch) == Ok(y.records)
  {
    var rs := RecordsOf(data.records, data.jets[jet].id);
    EmittedSortable(rs, x.records);
    SortTheorem(rs, ch);
    y := Emission(data.jets[jet], rs, ch);
  }

  lemma EmittedSortable(rs: seq<Record>, out: seq<Record>)
    requires RefIdentity(rs) && SortedTo(rs, out)
    ensures Sortable(rs)
  {
    var ch :| ValidChoices(rs, ch) && SortWith(rs, ch) == Ok(out);
    SortConserves(rs, ch);
  }

  /**
   A stored drop can be loaded again without any change to the tables, however
   hash map iteration sorts it, exactly if at most one object has states in it.
   */
  lemma ReloadChangesOrder(ops: seq<Op>, pulse: int, data: PulseData, jet: nat, x: JetDrop)
    requires Genuine(ops) && MayEmit(data, x, jet) && RefIdentity(RecordsOf(data.records, data.jets[jet].id))
    requires Latest(ops, Delivery(pulse, x).key) == Some(Delivery(pulse, x))
    ensures ReloadsAlike(ops, pulse, data, jet) <==> |Objects(RecordsOf(data.records, data.jets[jet].id))| <= 1
  {
    var rs := RecordsOf(data.records, data.jets[jet].id);
    EmittedSortable(rs, x.records);
    OrderShows(rs);
    if SameForAllChoices(rs) {
      forall y | MayEmit(data, y, jet) ensures Apply(Replay(ops), Delivery(pulse, y)) == Replay(ops) {
        assert SortedTo(rs, x.records) && SortedTo(rs, y.records);
        ReloadAlike(ops, pulse, data, jet, x, y);
      }
    } else {
      var a, b :| ValidChoices(rs, a) && ValidChoices(rs, b) && SortWith(rs, a) != SortWith(rs, b);
      var y := OtherEmission(data, jet, x, a);
      var z := OtherEmission(data, jet, x, b);
      ReloadAlike(ops, pulse, data, jet, x, y);
      ReloadAlike(ops, pulse, data, jet, x, z);
    }
  }

  // ---------------------------------------------------------------------
  // Two objects, one state each
  // ---------------------------------------------------------------------

  /** A pulse with one jet and two records. */
  function TwoStates(jet: Jet, a: Record, b: Record): PulseData {
    PulseData([jet], [PlatformRecord(jet.id, Supported(a)), PlatformRecord(jet.id, Supported(b))])
  }

  ghost predicate Unrelated(a: Record, b: Record) {
    a.kind == STATE && b.kind == STATE && a.obj != b.obj && a.raw != b.raw
  }

  lemma TwoRecords(jet: Jet, a: Record, b: Record)
    ensures RecordsOf(TwoStates(jet, a, b).records, jet.id) == [a, b]
  {
    var raw := TwoStates(jet, a, b).records;
    RecordsOfAppend([], raw[0], jet.id);
    RecordsOfAppend([raw[0]], raw[1], jet.id);
    assert [] + [raw[0]] == [raw[0]] && [raw[0]] + [raw[1]] == raw;
  }

  lemma PairStates(a: Record, b: Record, o: Id)
    requires Unrelated(a, b) && (o == a.obj || o == b.obj)
    ensures |StatesOf([a, b], o)| == 1
  {
    StatesOfAppend([], a, o);
    StatesOfAppend([a], b, o);
    assert [] + [a] == [a] && [a] + [b] == [a, b];
  }

  lemma PairSortable(a: Record, b: Record)
    requires Unrelated(a, b)
    ensures RefIdentity([a, b]) && Sortable([a, b]) && a.obj in Objects([a, b]) && |Objects([a, b])| > 1
  {
    var rs := [a, b];
    assert a in rs && b in rs;
    assert Objects(rs) == {a.obj, b.obj};
    assert |{a.obj, b.obj}| == 2;
    forall o | o in Objects(rs) ensures Orderable(StatesOf(rs, o)) {
      PairStates(a, b, o);
    }
  }

  lemma FirstDelivery(jet: Jet, rs: seq<Record>, o: Id) returns (x: JetDrop)
    requires RefIdentity(rs) && Sortable(rs) && o in Objects(rs) && DistinctRaws(rs)
    ensures DropOf(x, jet, rs) && SortedTo(rs, x.records) && DistinctRaws(x.records)
  {
    var ch := FirstObject(rs, o);
    x := Emission(jet, rs, ch);
    RawsPermuted(rs, x.records);
  }

  lemma FirstIsLatest(pulse: PulseOp, op: Op)
    requires op.DropSaved? && pulse.n == op.key.pulse && forall r :: r in op.records ==> r.drop == op.key
    ensures Latest([pulse, op], op.key) == Some(op)
  {
    var before := [pulse];
    var db := Replay(before);
    assert before[..0] == [] && pulse.n in db.pulses;
    SaveOk(db.(drops := db.drops[op.key := op.drop]), op.records);
    assert [pulse, op][..1] == before;
  }

  type PulseOp = op: Op | op.PulseSaved? witness PulseSaved(0, 0, 0, 0)

  lemma FirstGenuine(pulse: PulseOp, op: Op)
    requires op.DropSaved? && FromTransformer(op) && UniqueReferences(op.records)
    ensures Genuine([pulse, op])
  {
    assert forall a :: a in [pulse, op] && a.DropSaved? ==> a == op;
  }

  lemma FirstRun(pulse: PulseOp, data: PulseData, x: JetDrop)
    requires MayEmit(data, x, 0) && RefIdentity(RecordsOf(data.records, data.jets[0].id)) && DistinctRaws(x.records)
    ensures var op := Delivery(pulse.n, x); Genuine([pulse, op]) && Latest([pulse, op], op.key) == Some(op)
  {
    var op := Delivery(pulse.n, x);
    assert DeliveryOf(op, pulse.n, data, 0, x);
    FirstGenuine(pulse, op);
    EmittedRows(op);
    FirstIsLatest(pulse, op);
  }

  /**
   Any two states of different objects: after their first delivery, loading
   the drop again can change the records table.
   */
  lemma ReorderedRedelivery(pulse: PulseOp, jet: Jet, a: Record, b: Record) returns (x: JetDrop, y: JetDrop)
    requires Unrelated(a, b)
    ensures var data, ops := TwoStates(jet, a, b), [pulse, Delivery(pulse.n, x)];
      && Genuine(ops) && MayEmit(data, x, 0) && MayEmit(data, y, 0)
      && Apply(Replay(ops), Delivery(pulse.n, y)) != Replay(ops)
  {
    var data := TwoStates(jet, a, b);
    TwoRecords(jet, a, b);
    PairSortable(a, b);
    x := FirstDelivery(jet, [a, b], a.obj);
    y := ChangedBy(pulse, data, x);
  }

  lemma ChangedBy(pulse: PulseOp, data: PulseData, x: JetDrop) returns (y: JetDrop)
    requires MayEmit(data, x, 0) && RefIdentity(RecordsOf(data.records, data.jets[0].id)) && DistinctRaws(x.records)
    requires |Objects(RecordsOf(data.records, data.jets[0].id))| > 1
    ensures var ops := [pulse, Delivery(pulse.n, x)];
      Genuine(ops) && MayEmit(data, y, 0) && Apply(Replay(ops), Delivery(pulse.n, y)) != Replay(ops)
  {
    var ops := [pulse, Delivery(pulse.n, x)];
    FirstRun(pulse, data, x);
    ReloadChangesOrder(ops, pulse.n, data, 0, x);
    y :| MayEmit(data, y, 0) && Apply(Replay(ops), Delivery(pulse.n, y)) != Replay(ops);
  }
}
