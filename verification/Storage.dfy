/**
 The database as three tables, and the storage operations on them.

 Each operation is a transaction: a function from tables to tables.
 */
module Tables {
  import opened Common
  import Records

  datatype Pulse = Pulse(
    prev: int, next: int, complete: bool, sequential: bool, timestamp: int,
    jetDropAmount: int, recordAmount: int)

  datatype DropKey = DropKey(pulse: int, jet: string)

  /** `content` stands for the hashes, raw data and timestamp columns. */
  datatype Drop = Drop(content: string, recordAmount: nat)

  /** `reference` is the primary key; `content` holds the other columns of the record. */
  datatype Record = Record(reference: string, drop: DropKey, order: nat, content: Records.Record)

  datatype Db = Db(pulses: map<int, Pulse>, drops: map<DropKey, Drop>, records: map<string, Record>)

  datatype Saved = Saved(ok: bool, db: Db)

  // ---------------------------------------------------------------------
  // Transactions
  // ---------------------------------------------------------------------

  /** Insert, or overwrite only the links and the timestamp of an existing row. */
  function SavePulse(db: Db, n: int, p: Pulse): Db {
    var row := if n in db.pulses
      then db.pulses[n].(prev := p.prev, next := p.next, timestamp := p.timestamp)
      else p;
    db.(pulses := db.pulses[n := row])
  }

  function CompletePulse(db: Db, n: int): Saved {
    if n in db.pulses then Saved(true, db.(pulses := db.pulses[n := db.pulses[n].(complete := true)]))
    else Saved(false, db)
  }

  function SequencePulse(db: Db, n: int): Saved {
    if n in db.pulses then Saved(true, db.(pulses := db.pulses[n := db.pulses[n].(sequential := true)]))
    else Saved(false, db)
  }

  /** Upsert by reference; the foreign key demands a stored jet drop. */
  function SaveRecords(db: Db, rs: seq<Record>): Saved {
    if rs == [] then Saved(true, db) else
      var before := SaveRecords(db, rs[..|rs| - 1]);
      var r := rs[|rs| - 1];
      if before.ok && r.drop in db.drops
      then Saved(true, before.db.(records := before.db.records[r.reference := r]))
      else Saved(false, db)
  }

  function CountDrop(db: Db, n: int, records: nat): Db {
    if n in db.pulses then
      var p := db.pulses[n];
      db.(pulses := db.pulses[n :=
        p.(jetDropAmount := p.jetDropAmount + 1, recordAmount := p.recordAmount + records)])
    else db
  }

  predicate CanInsert(db: Db, key: DropKey) {
    key !in db.drops && key.pulse in db.pulses
  }

  /** First delivery of a jet drop: all or nothing. */
  function InitDrop(db: Db, key: DropKey, drop: Drop, rs: seq<Record>, n: int): Saved
    requires CanInsert(db, key)
  {
    var saved := SaveRecords(db.(drops := db.drops[key := drop]), rs);
    if saved.ok then Saved(true, CountDrop(saved.db, n, |rs|)) else Saved(false, db)
  }

  /** Any later delivery overwrites the rows and leaves the counters alone. */
  function UpdateDrop(db: Db, key: DropKey, drop: Drop, rs: seq<Record>): Saved {
    if key in db.drops || key.pulse in db.pulses then
      var saved := SaveRecords(db.(drops := db.drops[key := drop]), rs);
      if saved.ok then saved else Saved(false, db)
    else Saved(false, db)
  }

  function SaveJetDropData(db: Db, key: DropKey, drop: Drop, rs: seq<Record>, n: int): Saved {
    if CanInsert(db, key) then InitDrop(db, key, drop, rs, n) else UpdateDrop(db, key, drop, rs)
  }

  // ---------------------------------------------------------------------
  // Queries
  // ---------------------------------------------------------------------

  function StoredJets(db: Db, n: int): set<string> {
    set k | k in db.drops && k.pulse == n :: k.jet
  }

  function DropsOf(db: Db, n: int): set<DropKey> {
    set k | k in db.drops && k.pulse == n
  }

  /** Candidates of GetPulseByPrev; the query takes the least of them. */
  function WithPrev(db: Db, prev: int): set<int> {
    set n | n in db.pulses && db.pulses[n].prev == prev
  }

  /** At most one stored pulse per prev number. */
  ghost predicate OneSuccessor(db: Db) {
    forall m, n :: m in db.pulses && n in db.pulses && db.pulses[m].prev == db.pulses[n].prev ==> m == n
  }

  function SequentialPulses(db: Db): set<int> {
    set n | n in db.pulses && db.pulses[n].sequential
  }

  ghost predicate IsLeast(n: int, s: set<int>) {
    n in s && forall m :: m in s ==> n <= m
  }

  ghost predicate IsGreatest(n: int, s: set<int>) {
    n in s && forall m :: m in s ==> m <= n
  }

  method Greatest(s: set<int>) returns (m: int)
    requires s != {}
    ensures IsGreatest(m, s)
  {
    SomeMember(s);
    m :| m in s;
    var todo := s - {m};
    while todo != {}
      invariant todo <= s && m in s
      invariant forall n :: n in s ==> n <= m || n in todo
    {
      SomeMember(todo);
      var n :| n in todo;
      if n > m {
        m := n;
      }
      todo := todo - {n};
    }
  }

  method Least(s: set<int>) returns (m: int)
    requires s != {}
    ensures IsLeast(m, s)
  {
    SomeMember(s);
    m :| m in s;
    var todo := s - {m};
    while todo != {}
      invariant todo <= s && m in s
      invariant forall n :: n in s ==> m <= n || n in todo
    {
      SomeMember(todo);
      var n :| n in todo;
      if n < m {
        m := n;
      }
      todo := todo - {n};
    }
  }

  lemma {:induction false} LeastExists(s: set<int>)
    requires s != {}
    ensures exists m :: IsLeast(m, s)
    decreases s
  {
    SomeMember(s);
    var x :| x in s;
    assert forall y :: y in s ==> y == x || y in s - {x};
    if s - {x} == {} {
      assert IsLeast(x, s);
    } else {
      LeastExists(s - {x});
      var m :| IsLeast(m, s - {x});
      assert IsLeast(if x < m then x else m, s);
    }
  }

  lemma {:induction false} FailedRecord(db: Db, rs: seq<Record>, i: nat)
    requires i < |rs| && rs[i].drop !in db.drops
    ensures !SaveRecords(db, rs).ok
  {
    if i < |rs| - 1 {
      FailedRecord(db, rs[..|rs| - 1], i);
    }
  }

  // ---------------------------------------------------------------------
  // What the transactions keep
  // ---------------------------------------------------------------------

  lemma {:induction false} RecordsOnly(db: Db, rs: seq<Record>)
    ensures SaveRecords(db, rs).db.pulses == db.pulses && SaveRecords(db, rs).db.drops == db.drops
  {
    if rs != [] {
      RecordsOnly(db, rs[..|rs| - 1]);
    }
  }

  /** The effect of a delivery on the pulse and drop tables. */
  lemma DropEffect(db: Db, key: DropKey, drop: Drop, rs: seq<Record>, n: int)
    ensures var after := SaveJetDropData(db, key, drop, rs, n);
      && (after.ok ==> after.db.drops == db.drops[key := drop])
      && (after.ok ==> after.db.pulses == if CanInsert(db, key) then CountDrop(db, n, |rs|).pulses else db.pulses)
      && (!after.ok ==> after.db == db)
  {
    RecordsOnly(db.(drops := db.drops[key := drop]), rs);
  }
}

/** The storage object: its fields are the tables. */
module Storage {
  import T = Tables
  type Db = T.Db
  type Pulse = T.Pulse
  type Drop = T.Drop
  type DropKey = T.DropKey
  type Record = T.Record

  class Storage {
    var pulses: map<int, Pulse>
    var drops: map<DropKey, Drop>
    var records: map<string, Record>

    function Tables(): Db
      reads this
    {
      T.Db(pulses, drops, records)
    }

    constructor ()
      ensures Tables() == T.Db(map[], map[], map[])
    {
      pulses, drops, records := map[], map[], map[];
    }

    method SavePulse(n: int, p: Pulse)
      modifies this
      ensures Tables() == T.SavePulse(old(Tables()), n, p)
      ensures drops == old(drops) && records == old(records) && pulses.Keys == old(pulses.Keys) + {n}
      ensures forall m :: m in old(pulses) && m != n ==> pulses[m] == old(pulses)[m]
      ensures pulses[n].prev == p.prev && pulses[n].next == p.next && pulses[n].timestamp == p.timestamp
      ensures if n !in old(pulses) then pulses[n] == p else
        var row := old(pulses)[n];
        && pulses[n].complete == row.complete && pulses[n].sequential == row.sequential
        && pulses[n].jetDropAmount == row.jetDropAmount && pulses[n].recordAmount == row.recordAmount
    {
      if n in pulses {
        var row := pulses[n];
        pulses := pulses[n := row.(prev := p.prev, next := p.next, timestamp := p.timestamp)];
      } else {
        pulses := pulses[n := p];
      }
    }

    method CompletePulse(n: int) returns (ok: bool)
      modifies this`pulses
      ensures T.Saved(ok, Tables()) == T.CompletePulse(old(Tables()), n)
      ensures ok <==> n in old(pulses)
      ensures ok ==> pulses[n].complete
    {
      if n !in pulses {
        return false;
      }
      pulses := pulses[n := pulses[n].(complete := true)];
      return true;
    }

    method SequencePulse(n: int) returns (ok: bool)
      modifies this`pulses
      ensures T.Saved(ok, Tables()) == T.SequencePulse(old(Tables()), n)
      ensures ok <==> n in old(pulses)
      ensures ok ==> pulses[n].sequential
    {
      if n !in pulses {
        return false;
      }
      pulses := pulses[n := pulses[n].(sequential := true)];
      return true;
    }

    /** The loop of one transaction; the caller rolls back on failure. */
    method SaveRecords(rs: seq<Record>) returns (ok: bool)
      modifies this`records
      ensures ok == T.SaveRecords(old(Tables()), rs).ok
      ensures ok ==> Tables() == T.SaveRecords(old(Tables()), rs).db
    {
      ghost var start := Tables();
      for i := 0 to |rs|
        invariant T.Saved(true, Tables()) == T.SaveRecords(start, rs[..i])
        invariant drops == start.drops && pulses == start.pulses
      {
        assert rs[..i + 1][..i] == rs[..i];
        if rs[i].drop !in drops {
          T.FailedRecord(start, rs, i);
          return false;
        }
        records := records[rs[i].reference := rs[i]];
      }
      assert rs[..|rs|] == rs;
      return true;
    }

    method InitDrop(key: DropKey, drop: Drop, rs: seq<Record>, n: int) returns (ok: bool)
      requires T.CanInsert(Tables(), key)
      modifies this
      ensures T.Saved(ok, Tables()) == T.InitDrop(old(Tables()), key, drop, rs, n)
    {
      var before := T.Db(pulses, drops, records);
      drops := drops[key := drop];
      ok := SaveRecords(rs);
      if !ok {
        pulses, drops, records := before.pulses, before.drops, before.records;
        return;
      }
      if n in pulses {
        var p := pulses[n];
        pulses := pulses[n :=
          p.(jetDropAmount := p.jetDropAmount + 1, recordAmount := p.recordAmount + |rs|)];
      }
    }

    method UpdateDrop(key: DropKey, drop: Drop, rs: seq<Record>) returns (ok: bool)
      modifies this
      ensures T.Saved(ok, Tables()) == T.UpdateDrop(old(Tables()), key, drop, rs)
    {
      var before := T.Db(pulses, drops, records);
      if key !in drops && key.pulse !in pulses {
        return false;
      }
      drops := drops[key := drop];
      ok := SaveRecords(rs);
      if !ok {
        pulses, drops, records := before.pulses, before.drops, before.records;
      }
    }

    method SaveJetDropData(key: DropKey, drop: Drop, rs: seq<Record>, n: int) returns (ok: bool)
      modifies this
      ensures T.Saved(ok, Tables()) == T.SaveJetDropData(old(Tables()), key, drop, rs, n)
    {
      if key !in drops && key.pulse in pulses {
        ok := InitDrop(key, drop, rs, n);
      } else {
        ok := UpdateDrop(key, drop, rs);
      }
    }
  }
}
