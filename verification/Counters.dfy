/**
 The counters and tables over every run of saves, with any re-deliveries.
 */
module Counters {
  import Records
  import opened Tables

  /** What the processor and the controller ask of the storage. */
  datatype Op =
    | PulseSaved(n: int, prev: int, next: int, timestamp: int)
    | DropSaved(key: DropKey, drop: Drop, records: seq<Record>)
    | Completed(n: int)
    | Sequenced(n: int)

  function Apply(db: Db, op: Op): Db {
    match op
    case PulseSaved(n, prev, next, ts) => SavePulse(db, n, Pulse(prev, next, false, false, ts, 0, 0))
    case DropSaved(key, drop, rs) => SaveJetDropData(db, key, drop, rs, key.pulse).db
    case Completed(n) => CompletePulse(db, n).db
    case Sequenced(n) => SequencePulse(db, n).db
  }

  function Replay(ops: seq<Op>): Db {
    if ops == [] then Db(map[], map[], map[]) else Apply(Replay(ops[..|ops| - 1]), ops[|ops| - 1])
  }

  // ---------------------------------------------------------------------
  // jet_drop_amount
  // ---------------------------------------------------------------------

  ghost predicate DropsHavePulses(db: Db) {
    forall k :: k in db.drops ==> k.pulse in db.pulses
  }

  ghost predicate DropsCounted(db: Db) {
    forall n :: n in db.pulses ==> db.pulses[n].jetDropAmount == |DropsOf(db, n)|
  }

  lemma DropsOfInsert(db: Db, key: DropKey, drop: Drop, n: int)
    ensures var after := db.(drops := db.drops[key := drop]);
      DropsOf(after, n) == if n == key.pulse then DropsOf(db, n) + {key} else DropsOf(db, n)
  {
  }

  lemma CountInsert(db: Db, after: Db, key: DropKey, drop: Drop, n: int)
    requires after.drops == db.drops[key := drop]
    ensures |DropsOf(after, n)| == |DropsOf(db, n)| + if n == key.pulse && key !in db.drops then 1 else 0
  {
    if n == key.pulse && key !in db.drops {
      assert DropsOf(after, n) == DropsOf(db, n) + {key};
    } else {
      assert DropsOf(after, n) == DropsOf(db, n);
    }
  }

  lemma CountAfterDrop(db: Db, op: Op)
    requires op.DropSaved? && DropsHavePulses(db) && DropsCounted(db)
    ensures DropsHavePulses(Apply(db, op)) && DropsCounted(Apply(db, op))
  {
    var after := Apply(db, op);
    DropEffect(db, op.key, op.drop, op.records, op.key.pulse);
    if SaveJetDropData(db, op.key, op.drop, op.records, op.key.pulse).ok {
      forall n | n in after.pulses ensures after.pulses[n].jetDropAmount == |DropsOf(after, n)| {
        CountInsert(db, after, op.key, op.drop, n);
      }
    }
  }

  lemma CountAfterOther(db: Db, op: Op)
    requires !op.DropSaved? && DropsHavePulses(db) && DropsCounted(db)
    ensures DropsHavePulses(Apply(db, op)) && DropsCounted(Apply(db, op))
  {
    var after := Apply(db, op);
    forall n | n in after.pulses ensures after.pulses[n].jetDropAmount == |DropsOf(after, n)| {
      if n !in db.pulses {
        assert DropsOf(db, n) == {};
      }
    }
  }

  /** In every run each pulse counts exactly its stored jet drops. */
  lemma {:induction false} JetDropAmounts(ops: seq<Op>)
    ensures DropsHavePulses(Replay(ops)) && DropsCounted(Replay(ops))
  {
    if ops != [] {
      var m := |ops| - 1;
      JetDropAmounts(ops[..m]);
      if ops[m].DropSaved? {
        CountAfterDrop(Replay(ops[..m]), ops[m]);
      } else {
        CountAfterOther(Replay(ops[..m]), ops[m]);
      }
    }
  }

  // ---------------------------------------------------------------------
  // record_amount
  // ---------------------------------------------------------------------

  /** Deliveries of one jet drop are identical and count their records. */
  ghost predicate Identical(ops: seq<Op>) {
    && (forall a, b :: a in ops && b in ops && a.DropSaved? && b.DropSaved? && a.key == b.key ==> a == b)
    && (forall a :: a in ops && a.DropSaved? ==> a.drop.recordAmount == |a.records|)
  }

  type Drops = map<DropKey, Drop>

  ghost function SumAmounts(drops: Drops, keys: set<DropKey>): nat
    requires forall k :: k in keys ==> k in drops
  {
    if keys == {} then 0 else
      var k :| k in keys;
      drops[k].recordAmount + SumAmounts(drops, keys - {k})
  }

  lemma {:induction false} SumRemove(drops: Drops, keys: set<DropKey>, x: DropKey)
    requires (forall k :: k in keys ==> k in drops) && x in keys
    ensures SumAmounts(drops, keys) == drops[x].recordAmount + SumAmounts(drops, keys - {x})
    decreases keys
  {
    var k :| k in keys && SumAmounts(drops, keys) == drops[k].recordAmount + SumAmounts(drops, keys - {k});
    if k != x {
      SumRemove(drops, keys - {k}, x);
      SumRemove(drops, keys - {x}, k);
      assert keys - {k} - {x} == keys - {x} - {k};
    }
  }

  lemma {:induction false} SumSame(a: Drops, b: Drops, keys: set<DropKey>)
    requires forall k :: k in keys ==> k in a && k in b && a[k].recordAmount == b[k].recordAmount
    ensures SumAmounts(a, keys) == SumAmounts(b, keys)
    decreases keys
  {
    if keys != {} {
      var k :| k in keys;
      SumRemove(a, keys, k);
      SumRemove(b, keys, k);
      SumSame(a, b, keys - {k});
    }
  }

  ghost predicate RecordsCounted(db: Db) {
    forall n :: n in db.pulses ==> CountedAt(db, n)
  }

  /** Every stored drop is the content of some delivery. */
  ghost predicate FromDeliveries(db: Db, ops: seq<Op>) {
    forall k :: k in db.drops ==> Delivered(db, ops, k)
  }

  ghost predicate Delivered(db: Db, ops: seq<Op>, k: DropKey)
    requires k in db.drops
  {
    exists op :: op in ops && op.DropSaved? && op.key == k && op.drop == db.drops[k]
  }

  lemma {:induction false} StoredFromDeliveries(ops: seq<Op>)
    ensures FromDeliveries(Replay(ops), ops)
  {
    if ops != [] {
      var m := |ops| - 1;
      var op, db := ops[m], Replay(ops[..m]);
      StoredFromDeliveries(ops[..m]);
      if op.DropSaved? {
        DropEffect(db, op.key, op.drop, op.records, op.key.pulse);
      }
      forall k | k in Replay(ops).drops ensures Delivered(Replay(ops), ops, k) {
        if op.DropSaved? && op.key == k && Replay(ops).drops[k] == op.drop {
          assert op in ops;
        } else {
          assert Delivered(db, ops[..m], k);
          var d :| d in ops[..m] && d.DropSaved? && d.key == k && d.drop == db.drops[k];
          assert d in ops;
        }
      }
    }
  }

  /** The amount a stored or new drop is expected to have. */
  function ExpectedAmount(db: Db, op: Op): nat
    requires op.DropSaved?
  {
    if op.key in db.drops then db.drops[op.key].recordAmount else |op.records|
  }

  /** A delivery that brings the number of records already counted for its drop. */
  ghost predicate KeepsCount(db: Db, op: Op) {
    op.DropSaved? && SaveJetDropData(db, op.key, op.drop, op.records, op.key.pulse).ok ==>
      op.drop.recordAmount == ExpectedAmount(db, op)
  }

  ghost predicate CountedAt(db: Db, n: int) {
    n in db.pulses ==> db.pulses[n].recordAmount == SumAmounts(db.drops, DropsOf(db, n))
  }

  /** The sum over one pulse after a delivery to it. */
  lemma SumAfterDrop(db: Db, after: Db, op: Op)
    requires op.DropSaved? && after.drops == db.drops[op.key := op.drop]
    ensures SumAmounts(after.drops, DropsOf(after, op.key.pulse)) +
      (if op.key in db.drops then db.drops[op.key].recordAmount else 0) ==
      SumAmounts(db.drops, DropsOf(db, op.key.pulse)) + op.drop.recordAmount
  {
    var n, key := op.key.pulse, op.key;
    DropsOfInsert(db, key, op.drop, n);
    var keys, rest := DropsOf(db, n), DropsOf(db, n) - {key};
    assert keys + {key} - {key} == rest;
    SumRemove(after.drops, keys + {key}, key);
    SumSame(db.drops, after.drops, rest);
    if key in db.drops {
      SumRemove(db.drops, keys, key);
    } else {
      assert rest == keys;
    }
  }

  /** One delivery keeps the counter right exactly when it keeps the count. */
  lemma CountedAfterDrop(db: Db, op: Op)
    requires op.DropSaved? && RecordsCounted(db) && DropsHavePulses(db)
    ensures RecordsCounted(Apply(db, op)) <==> KeepsCount(db, op)
  {
    var after := Apply(db, op);
    DropEffect(db, op.key, op.drop, op.records, op.key.pulse);
    if SaveJetDropData(db, op.key, op.drop, op.records, op.key.pulse).ok {
      SumAfterDrop(db, after, op);
      assert op.key.pulse in db.pulses;
      forall n | n in after.pulses && n != op.key.pulse ensures CountedAt(after, n) {
        DropsOfInsert(db, op.key, op.drop, n);
        SumSame(db.drops, after.drops, DropsOf(db, n));
        assert CountedAt(db, n);
      }
      assert CountedAt(db, op.key.pulse);
      assert CountedAt(after, op.key.pulse) <==> op.drop.recordAmount == ExpectedAmount(db, op);
    }
  }

  lemma CountedAfterOther(db: Db, op: Op)
    requires !op.DropSaved? && RecordsCounted(db) && DropsHavePulses(db)
    ensures RecordsCounted(Apply(db, op))
  {
    var after := Apply(db, op);
    forall n | n in after.pulses ensures CountedAt(after, n) {
      assert n in db.pulses ==> CountedAt(db, n);
      SumSame(after.drops, db.drops, DropsOf(db, n));
      if n !in db.pulses {
        assert DropsOf(db, n) == {};
      }
    }
  }

  ghost predicate CountedThroughout(ops: seq<Op>) {
    forall i :: 0 <= i <= |ops| ==> RecordsCounted(Replay(ops[..i]))
  }

  ghost predicate KeepsCountThroughout(ops: seq<Op>) {
    forall i :: 0 <= i < |ops| ==> KeepsCount(Replay(ops[..i]), ops[i])
  }

  lemma CountedSnoc(ops: seq<Op>, last: Op)
    ensures CountedThroughout(ops + [last]) <==> CountedThroughout(ops) && RecordsCounted(Replay(ops + [last]))
  {
    var all := ops + [last];
    assert all[..|all|] == all;
    assert forall i :: 0 <= i <= |ops| ==> all[..i] == ops[..i];
    if CountedThroughout(ops) && RecordsCounted(Replay(all)) {
      forall i | 0 <= i <= |all| ensures RecordsCounted(Replay(all[..i])) {
        assert i < |all| ==> RecordsCounted(Replay(ops[..i]));
      }
    }
  }

  lemma KeepsCountSnoc(ops: seq<Op>, last: Op)
    ensures KeepsCountThroughout(ops + [last]) <==> KeepsCountThroughout(ops) && KeepsCount(Replay(ops), last)
  {
    var all := ops + [last];
    assert all[..|ops|] == ops;
    assert forall i :: 0 <= i < |ops| ==> all[..i] == ops[..i] && all[i] == ops[i];
    if KeepsCountThroughout(ops) && KeepsCount(Replay(ops), last) {
      forall i | 0 <= i < |all| ensures KeepsCount(Replay(all[..i]), all[i]) {
        assert i < |ops| ==> KeepsCount(Replay(ops[..i]), ops[i]);
      }
    }
    if KeepsCountThroughout(all) {
      assert KeepsCount(Replay(all[..|ops|]), all[|ops|]);
      forall i | 0 <= i < |ops| ensures KeepsCount(Replay(ops[..i]), ops[i]) {
        assert KeepsCount(Replay(all[..i]), all[i]);
      }
    }
  }

  /**
   record_amount is the sum over the stored drops throughout a run exactly
   when every accepted delivery brings the number of records already counted.
   */
  lemma {:induction false} RecordAmounts(ops: seq<Op>)
    ensures CountedThroughout(ops) <==> KeepsCountThroughout(ops)
    ensures CountedThroughout(ops) ==> RecordsCounted(Replay(ops))
  {
    if ops == [] {
      assert Replay(ops[..0]) == Replay([]);
    } else {
      var m := |ops| - 1;
      RecordAmounts(ops[..m]);
      assert ops == ops[..m] + [ops[m]];
      CountedSnoc(ops[..m], ops[m]);
      KeepsCountSnoc(ops[..m], ops[m]);
      JetDropAmounts(ops[..m]);
      if RecordsCounted(Replay(ops[..m])) {
        if ops[m].DropSaved? {
          CountedAfterDrop(Replay(ops[..m]), ops[m]);
        } else {
          CountedAfterOther(Replay(ops[..m]), ops[m]);
        }
      }
    }
  }

  // ---------------------------------------------------------------------
  // record_amount in the last state
  // ---------------------------------------------------------------------

  predicate Accepted(db: Db, op: Op) {
    op.DropSaved? && SaveJetDropData(db, op.key, op.drop, op.records, op.key.pulse).ok
  }

  /** The first accepted delivery of each drop, with the number of its records. */
  ghost function FirstDrops(ops: seq<Op>): Drops {
    if ops == [] then map[] else
      var last, before := ops[|ops| - 1], ops[..|ops| - 1];
      if Accepted(Replay(before), last) && last.key !in Replay(before).drops
      then FirstDrops(before)[last.key := Drop(last.drop.content, |last.records|)]
      else FirstDrops(before)
  }

  lemma {:induction false} FirstDropsKeys(ops: seq<Op>)
    ensures FirstDrops(ops).Keys == Replay(ops).drops.Keys
  {
    if ops != [] {
      var m := |ops| - 1;
      var db, last := Replay(ops[..m]), ops[m];
      FirstDropsKeys(ops[..m]);
      if last.DropSaved? {
        DropEffect(db, last.key, last.drop, last.records, last.key.pulse);
      }
    }
  }

  /** The sum over the drops of one pulse after an insertion. */
  lemma SumAfterInsert(first: Drops, db: Db, after: Db, key: DropKey, drop: Drop, n: int)
    requires first.Keys == db.drops.Keys && key !in db.drops && after.drops.Keys == db.drops.Keys + {key}
    ensures SumAmounts(first[key := drop], DropsOf(after, n)) ==
      SumAmounts(first, DropsOf(db, n)) + if n == key.pulse then drop.recordAmount else 0
  {
    var keys, first' := DropsOf(db, n), first[key := drop];
    if n == key.pulse {
      assert DropsOf(after, n) == keys + {key} && keys + {key} - {key} == keys;
      SumRemove(first', keys + {key}, key);
    } else {
      assert DropsOf(after, n) == keys;
    }
    SumSame(first, first', keys);
  }

  /** record_amount counts the first accepted delivery of each stored drop. */
  ghost predicate FirstCounted(first: Drops, db: Db)
    requires first.Keys == db.drops.Keys
  {
    forall n :: n in db.pulses ==> FirstCountedAt(first, db, n)
  }

  ghost predicate FirstCountedAt(first: Drops, db: Db, n: int)
    requires first.Keys == db.drops.Keys && n in db.pulses
  {
    db.pulses[n].recordAmount == SumAmounts(first, DropsOf(db, n))
  }

  lemma FirstCountedInsert(first: Drops, db: Db, op: Op)
    requires first.Keys == db.drops.Keys && FirstCounted(first, db) && Accepted(db, op) && op.key !in db.drops
    ensures var first', after := first[op.key := Drop(op.drop.content, |op.records|)], Apply(db, op);
      first'.Keys == after.drops.Keys && FirstCounted(first', after)
  {
    var drop, after := Drop(op.drop.content, |op.records|), Apply(db, op);
    DropEffect(db, op.key, op.drop, op.records, op.key.pulse);
    forall n | n in after.pulses ensures FirstCountedAt(first[op.key := drop], after, n) {
      assert FirstCountedAt(first, db, n);
      SumAfterInsert(first, db, after, op.key, drop, n);
    }
  }

  lemma FirstCountedOther(first: Drops, db: Db, op: Op)
    requires first.Keys == db.drops.Keys && FirstCounted(first, db) && DropsHavePulses(db)
    requires !(Accepted(db, op) && op.key !in db.drops)
    ensures first.Keys == Apply(db, op).drops.Keys && FirstCounted(first, Apply(db, op))
  {
    var after := Apply(db, op);
    if op.DropSaved? {
      DropEffect(db, op.key, op.drop, op.records, op.key.pulse);
    }
    assert after.drops.Keys == db.drops.Keys;
    forall n | n in after.pulses ensures FirstCountedAt(first, after, n) {
      assert DropsOf(after, n) == DropsOf(db, n);
      if n in db.pulses {
        assert FirstCountedAt(first, db, n);
      } else {
        assert DropsOf(db, n) == {};
      }
    }
  }

  /**
   In every run, whatever the re-deliveries bring: record_amount of a pulse is
   the number of records in the first accepted deliveries of its stored drops.
   */
  lemma {:induction false} RecordAmountIsFirst(ops: seq<Op>)
    ensures FirstDrops(ops).Keys == Replay(ops).drops.Keys && FirstCounted(FirstDrops(ops), Replay(ops))
  {
    FirstDropsKeys(ops);
    if ops != [] {
      var m := |ops| - 1;
      var db, last := Replay(ops[..m]), ops[m];
      RecordAmountIsFirst(ops[..m]);
      JetDropAmounts(ops[..m]);
      if Accepted(db, last) && last.key !in db.drops {
        FirstCountedInsert(FirstDrops(ops[..m]), db, last);
      } else {
        FirstCountedOther(FirstDrops(ops[..m]), db, last);
      }
    }
  }

  /**
   So the last state of a run has a right record_amount exactly if, pulse by
   pulse, the first deliveries and the stored drops agree in their sums.
   */
  lemma LastStateCounted(ops: seq<Op>)
    ensures FirstDrops(ops).Keys == Replay(ops).drops.Keys
    ensures RecordsCounted(Replay(ops)) <==>
      forall n :: n in Replay(ops).pulses ==>
        SumAmounts(FirstDrops(ops), DropsOf(Replay(ops), n)) == SumAmounts(Replay(ops).drops, DropsOf(Replay(ops), n))
  {
    var db := Replay(ops);
    RecordAmountIsFirst(ops);
    forall n | n in db.pulses
      ensures CountedAt(db, n) <==>
        SumAmounts(FirstDrops(ops), DropsOf(db, n)) == SumAmounts(db.drops, DropsOf(db, n))
    {
      assert FirstCountedAt(FirstDrops(ops), db, n);
    }
  }

  /** In particular identical re-deliveries keep it right. */
  lemma IdenticalRecordAmounts(ops: seq<Op>)
    requires Identical(ops)
    ensures RecordsCounted(Replay(ops))
  {
    forall i | 0 <= i < |ops| ensures KeepsCount(Replay(ops[..i]), ops[i]) {
      StoredFromDeliveries(ops[..i]);
      if ops[i].DropSaved? && ops[i].key in Replay(ops[..i]).drops {
        assert Delivered(Replay(ops[..i]), ops[..i], ops[i].key);
        assert ops[i] in ops;
      }
    }
    RecordAmounts(ops);
  }

  /** A re-delivery with another number of records leaves the counter behind. */
  lemma ChangedRedeliveryDrifts(content: Records.Record)
    ensures var key := DropKey(7, "");
      var ops := [PulseSaved(7, 6, 8, 0), DropSaved(key, Drop("", 0), []),
                  DropSaved(key, Drop("", 1), [Record("r", key, 0, content)])];
      !RecordsCounted(Replay(ops))
  {
    var key := DropKey(7, "");
    var r := Record("r", key, 0, content);
    var a, b, c := PulseSaved(7, 6, 8, 0), DropSaved(key, Drop("", 0), []), DropSaved(key, Drop("", 1), [r]);
    var db1 := Replay([a]);
    assert [a][..0] == [] && db1 == Apply(Replay([]), a);
    var db2 := Replay([a, b]);
    assert [a, b][..1] == [a] && db2 == Apply(db1, b);
    var db3 := Replay([a, b, c]);
    assert [a, b, c][..2] == [a, b] && db3 == Apply(db2, c);
    assert SaveRecords(db2.(drops := db2.drops[key := c.drop]), [r][..0]).ok;
    assert db3.drops == map[key := Drop("", 1)] && db3.pulses[7].recordAmount == 0;
    assert DropsOf(db3, 7) == {key};
    SumRemove(db3.drops, {key}, key);
    assert !CountedAt(db3, 7);
  }

  // ---------------------------------------------------------------------
  // Re-delivery changes nothing
  // ---------------------------------------------------------------------

  /** The record that the last write under a reference leaves behind. */
  function LastWith(rs: seq<Record>, ref: string): (last: seq<Record>)
    ensures |last| <= 1
  {
    if rs == [] then [] else
      var r := rs[|rs| - 1];
      if r.reference == ref then [r] else LastWith(rs[..|rs| - 1], ref)
  }

  ghost predicate Holds(db: Db, rs: seq<Record>, ref: string) {
    LastWith(rs, ref) != [] ==> ref in db.records && db.records[ref] == LastWith(rs, ref)[0]
  }

  /** The records table already says what saving `rs` would make it say. */
  ghost predicate Settled(db: Db, rs: seq<Record>) {
    && (forall r :: r in rs ==> r.drop in db.drops)
    && (forall ref :: Holds(db, rs, ref))
  }

  predicate SameRow(a: Db, b: Db, ref: string) {
    (ref in b.records <==> ref in a.records) && (ref in a.records ==> b.records[ref] == a.records[ref])
  }

  lemma {:induction false} SaveLookup(db: Db, rs: seq<Record>, ref: string)
    requires SaveRecords(db, rs).ok
    ensures var after := SaveRecords(db, rs).db;
      if LastWith(rs, ref) == []
      then SameRow(db, after, ref)
      else ref in after.records && after.records[ref] == LastWith(rs, ref)[0]
  {
    if rs != [] {
      SaveLookup(db, rs[..|rs| - 1], ref);
    }
  }

  lemma {:induction false} SaveOk(db: Db, rs: seq<Record>)
    ensures SaveRecords(db, rs).ok <==> forall r :: r in rs ==> r.drop in db.drops
  {
    if rs != [] {
      var n := |rs| - 1;
      SaveOk(db, rs[..n]);
      assert rs == rs[..n] + [rs[n]];
    }
  }

  lemma {:induction false} LastIsMember(rs: seq<Record>, ref: string)
    ensures LastWith(rs, ref) != [] <==> exists r :: r in rs && r.reference == ref
  {
    if rs != [] {
      var n := |rs| - 1;
      LastIsMember(rs[..n], ref);
      assert rs == rs[..n] + [rs[n]];
    }
  }

  lemma SettledIsFixed(db: Db, rs: seq<Record>)
    requires Settled(db, rs)
    ensures SaveRecords(db, rs) == Saved(true, db)
  {
    SaveOk(db, rs);
    RecordsOnly(db, rs);
    var after := SaveRecords(db, rs).db;
    forall ref ensures SameRow(db, after, ref) {
      SaveLookup(db, rs, ref);
      assert Holds(db, rs, ref);
    }
    assert forall ref :: ref in after.records ==> SameRow(db, after, ref);
    assert forall ref :: ref in db.records ==> SameRow(db, after, ref);
    assert after.records == db.records;
  }

  lemma SaveSettles(db: Db, rs: seq<Record>)
    requires SaveRecords(db, rs).ok
    ensures Settled(SaveRecords(db, rs).db, rs)
  {
    SaveOk(db, rs);
    RecordsOnly(db, rs);
    forall ref ensures Holds(SaveRecords(db, rs).db, rs, ref) {
      SaveLookup(db, rs, ref);
    }
  }

  /** Records of other drops do not disturb a settled drop. */
  lemma OthersKeepSettled(db: Db, rs: seq<Record>, others: seq<Record>)
    requires Settled(db, rs) && SaveRecords(db, others).ok
    requires forall r, q :: r in rs && q in others ==> r.reference != q.reference
    ensures Settled(SaveRecords(db, others).db, rs)
  {
    RecordsOnly(db, others);
    forall ref ensures Holds(SaveRecords(db, others).db, rs, ref) {
      assert Holds(db, rs, ref);
      SaveLookup(db, others, ref);
      LastIsMember(rs, ref);
      LastIsMember(others, ref);
    }
  }

  /** Every record reference belongs to a single jet drop. */
  ghost predicate SingleOwner(ops: seq<Op>) {
    forall a, b :: a in ops && b in ops && a.DropSaved? && b.DropSaved? && a.key != b.key ==> Disjoint(a, b)
  }

  ghost predicate Disjoint(a: Op, b: Op)
    requires a.DropSaved? && b.DropSaved?
  {
    forall r, q :: r in a.records && q in b.records ==> r.reference != q.reference
  }

  ghost predicate AllSettled(db: Db, ops: seq<Op>) {
    forall op :: op in ops && op.DropSaved? && op.key in db.drops ==> Settled(db, op.records)
  }

  lemma SettledAfterInsert(db: Db, key: DropKey, drop: Drop, rs: seq<Record>)
    requires Settled(db, rs)
    ensures Settled(db.(drops := db.drops[key := drop]), rs)
  {
    var after := db.(drops := db.drops[key := drop]);
    forall ref ensures Holds(after, rs, ref) {
      assert Holds(db, rs, ref);
    }
  }

  lemma SettledSame(a: Db, b: Db, rs: seq<Record>)
    requires Settled(a, rs) && a.records == b.records && a.drops == b.drops
    ensures Settled(b, rs)
  {
    forall ref ensures Holds(b, rs, ref) {
      assert Holds(a, rs, ref);
    }
  }

  lemma SettledAfterDrop(db: Db, op: Op, other: Op)
    requires op.DropSaved? && other.DropSaved?
    requires SaveJetDropData(db, op.key, op.drop, op.records, op.key.pulse).ok
    requires op == other || (Settled(db, other.records) && Disjoint(other, op))
    ensures Settled(Apply(db, op), other.records)
  {
    var inserted := db.(drops := db.drops[op.key := op.drop]);
    var saved := SaveRecords(inserted, op.records).db;
    if op == other {
      SaveSettles(inserted, op.records);
    } else {
      SettledAfterInsert(db, op.key, op.drop, other.records);
      OthersKeepSettled(inserted, other.records, op.records);
    }
    SettledSame(saved, Apply(db, op), other.records);
  }

  lemma {:induction false} RunSettles(ops: seq<Op>)
    requires Identical(ops) && SingleOwner(ops)
    ensures AllSettled(Replay(ops), ops)
  {
    if ops != [] {
      var m := |ops| - 1;
      var last, db := ops[m], Replay(ops[..m]);
      RunSettles(ops[..m]);
      StoredFromDeliveries(ops[..m]);
      assert last in ops;
      forall op | op in ops && op.DropSaved? && op.key in Replay(ops).drops
        ensures Settled(Replay(ops), op.records)
      {
        RunSettlesStep(ops, m, db, last, op);
      }
    }
  }

  lemma RunSettlesStep(ops: seq<Op>, m: nat, db: Db, last: Op, op: Op)
    requires m == |ops| - 1 && Identical(ops) && SingleOwner(ops)
    requires last == ops[m] && db == Replay(ops[..m])
    requires AllSettled(db, ops[..m]) && FromDeliveries(db, ops[..m])
    requires op in ops && op.DropSaved? && op.key in Replay(ops).drops
    ensures Settled(Replay(ops), op.records)
  {
    assert last in ops;
    if op.key in db.drops {
      assert Delivered(db, ops[..m], op.key);
      var d :| d in ops[..m] && d.DropSaved? && d.key == op.key;
      assert d in ops && d == op;
      assert Settled(db, op.records);
    }
    if last.DropSaved? {
      DropEffect(db, last.key, last.drop, last.records, last.key.pulse);
      if SaveJetDropData(db, last.key, last.drop, last.records, last.key.pulse).ok {
        assert op.key == last.key ==> op == last;
        SettledAfterDrop(db, last, op);
      }
    } else {
      SettledSame(db, Replay(ops), op.records);
    }
  }

  /** When a delivery is accepted: the drop or its pulse is known, and so is every record's drop. */
  lemma AcceptedExactly(db: Db, op: Op)
    requires op.DropSaved?
    ensures Accepted(db, op) <==>
      && (op.key in db.drops || op.key.pulse in db.pulses)
      && forall r :: r in op.records ==> r.drop == op.key || r.drop in db.drops
  {
    var inserted := db.(drops := db.drops[op.key := op.drop]);
    SaveOk(inserted, op.records);
    assert forall r: Record :: r.drop in inserted.drops <==> r.drop == op.key || r.drop in db.drops;
  }

  /** The links and timestamp of a pulse never change between deliveries. */
  ghost predicate StablePulses(ops: seq<Op>) {
    forall a, b :: a in ops && b in ops && a.PulseSaved? && b.PulseSaved? && a.n == b.n ==> a == b
  }

  ghost predicate PulseHeld(db: Db, op: Op)
    requires op.PulseSaved?
  {
    && op.n in db.pulses
    && db.pulses[op.n].prev == op.prev && db.pulses[op.n].next == op.next
    && db.pulses[op.n].timestamp == op.timestamp
  }

  /** In every run a pulse row has the links and timestamp of the last save of that pulse. */
  lemma {:induction false} LastSaveHolds(ops: seq<Op>, i: nat)
    requires i < |ops| && ops[i].PulseSaved?
    requires forall j :: i < j < |ops| ==> !(ops[j].PulseSaved? && ops[j].n == ops[i].n)
    ensures PulseHeld(Replay(ops), ops[i])
  {
    var m := |ops| - 1;
    var last, db := ops[m], Replay(ops[..m]);
    if last.DropSaved? {
      DropEffect(db, last.key, last.drop, last.records, last.key.pulse);
    }
    if i < m {
      LastSaveHolds(ops[..m], i);
    }
  }

  lemma {:induction false} LastSave(ops: seq<Op>, n: int, k: nat) returns (i: nat)
    requires k < |ops| && ops[k].PulseSaved? && ops[k].n == n
    ensures i < |ops| && ops[i].PulseSaved? && ops[i].n == n
    ensures forall j :: i < j < |ops| ==> !(ops[j].PulseSaved? && ops[j].n == n)
    decreases |ops| - k
  {
    i := k;
    if j :| k < j < |ops| && ops[j].PulseSaved? && ops[j].n == n {
      i := LastSave(ops, n, j);
    }
  }

  lemma RunHoldsPulses(ops: seq<Op>, op: Op)
    requires StablePulses(ops) && op in ops && op.PulseSaved?
    ensures PulseHeld(Replay(ops), op)
  {
    var k :| 0 <= k < |ops| && ops[k] == op;
    var i := LastSave(ops, op.n, k);
    assert ops[i] in ops;
    LastSaveHolds(ops, i);
  }

  /** Delivering again what a run already stored leaves every table as it was. */
  lemma RedeliveryChangesNothing(ops: seq<Op>, op: Op)
    requires Identical(ops) && SingleOwner(ops) && StablePulses(ops) && op in ops
    requires op.PulseSaved? || (op.DropSaved? && op.key in Replay(ops).drops)
    ensures Apply(Replay(ops), op) == Replay(ops)
  {
    var db := Replay(ops);
    if op.PulseSaved? {
      RunHoldsPulses(ops, op);
      assert Apply(db, op).pulses == db.pulses;
    } else {
      RunSettles(ops);
      StoredFromDeliveries(ops);
      assert Delivered(db, ops, op.key);
      assert db.drops[op.key := op.drop] == db.drops;
      SettledIsFixed(db, op.records);
    }
  }
}
