/**
 From one pulse of platform records to jet drops: grouping by jet
 and sorting each group.
 */
module Transformer {
  import opened Common
  import opened Records
  import opened SortRecords
  import opened SortTheorems

  /** What reading the canonical form of a platform record yields. */
  datatype Canonical = Supported(record: Record) | Unsupported | Broken
  datatype PlatformRecord = PlatformRecord(jet: JetId, canonical: Canonical)
  datatype JetId = JetId(valid: bool, prefix: string)
  datatype Jet = Jet(id: JetId, hash: string, prevDropHashes: seq<string>)
  datatype PulseData = PulseData(jets: seq<Jet>, records: seq<PlatformRecord>)
  datatype JetDrop = JetDrop(prefix: string, records: seq<Record>, hash: string, prevDropHashes: seq<string>)
  datatype Outcome = Failed | Drops(drops: seq<JetDrop>)

  /** The supported records of one jet, in arrival order. */
  function RecordsOf(raw: seq<PlatformRecord>, jet: JetId): seq<Record> {
    if raw == [] then [] else
      var last := raw[|raw| - 1];
      RecordsOf(raw[..|raw| - 1], jet) +
      (if last.jet == jet && last.canonical.Supported? then [last.canonical.record] else [])
  }

  ghost predicate HasBroken(raw: seq<PlatformRecord>) {
    exists i :: 0 <= i < |raw| && raw[i].canonical.Broken?
  }

  lemma RecordsOfAppend(raw: seq<PlatformRecord>, x: PlatformRecord, jet: JetId)
    ensures RecordsOf(raw + [x], jet) ==
      if x.jet == jet && x.canonical.Supported? then RecordsOf(raw, jet) + [x.canonical.record] else RecordsOf(raw, jet)
  {
    assert (raw + [x])[..|raw|] == raw;
  }

  /** Position i holds a supported record of the jet. */
  predicate RecordAt(raw: seq<PlatformRecord>, jet: JetId, i: nat) {
    i < |raw| && raw[i].jet == jet && raw[i].canonical.Supported?
  }

  /** `at` lists, ascending, all positions of a jet's supported records. */
  ghost predicate Positions(raw: seq<PlatformRecord>, jet: JetId, at: seq<nat>) {
    && (forall a, b :: 0 <= a < b < |at| ==> at[a] < at[b])
    && (forall i :: i in at <==> RecordAt(raw, jet, i))
  }

  /** A jet's records are exactly its supported ones, once each and in arrival order. */
  lemma {:induction false} ArrivalOrder(raw: seq<PlatformRecord>, jet: JetId) returns (at: seq<nat>)
    ensures Positions(raw, jet, at) && |RecordsOf(raw, jet)| == |at|
    ensures forall k :: 0 <= k < |at| ==> at[k] < |raw| && raw[at[k]].canonical == Supported(RecordsOf(raw, jet)[k])
  {
    at := [];
    if raw != [] {
      var n := |raw| - 1;
      at := ArrivalOrder(raw[..n], jet);
      forall i ensures RecordAt(raw, jet, i) <==> RecordAt(raw[..n], jet, i) || (i == n && RecordAt(raw, jet, n)) {
      }
      if RecordAt(raw, jet, n) {
        assert forall k :: 0 <= k < |at| ==> at[k] in at;
        at := at + [n];
      }
    }
  }

  type Groups = map<JetId, seq<Record>>

  function Group(m: Groups, jet: JetId): seq<Record> {
    if jet in m then m[jet] else []
  }

  /** Every jet has exactly its supported records of `raw`. */
  ghost predicate GroupedBy(m: Groups, raw: seq<PlatformRecord>) {
    forall jet :: Group(m, jet) == RecordsOf(raw, jet)
  }

  lemma GroupSupported(m: Groups, raw: seq<PlatformRecord>, x: PlatformRecord)
    requires GroupedBy(m, raw) && x.canonical.Supported?
    ensures GroupedBy(m[x.jet := Group(m, x.jet) + [x.canonical.record]], raw + [x])
  {
    var m' := m[x.jet := Group(m, x.jet) + [x.canonical.record]];
    forall jet ensures Group(m', jet) == RecordsOf(raw + [x], jet) {
      RecordsOfAppend(raw, x, jet);
      assert Group(m, jet) == RecordsOf(raw, jet);
    }
  }

  /** Without records every listed jet gets an empty group. */
  method EmptyGroups(jets: seq<Jet>) returns (m: Groups)
    ensures GroupedBy(m, []) && forall i :: 0 <= i < |jets| ==> jets[i].id in m
  {
    m := map[];
    for i := 0 to |jets|
      invariant forall jet :: jet in m ==> m[jet] == []
      invariant forall k :: 0 <= k < i ==> jets[k].id in m
    {
      m := m[jets[i].id := []];
    }
  }

  /** None is the error return. */
  method GetRecords(data: PulseData) returns (res: Option<Groups>)
    ensures res.None? <==> HasBroken(data.records)
    ensures res.Some? ==> GroupedBy(res.value, data.records)
  {
    var m: Groups := map[];
    if |data.records| == 0 {
      m := EmptyGroups(data.jets);
      return Some(m);
    }
    for i := 0 to |data.records|
      invariant forall k :: 0 <= k < i ==> !data.records[k].canonical.Broken?
      invariant GroupedBy(m, data.records[..i])
    {
      var r := data.records[i];
      assert data.records[..i + 1] == data.records[..i] + [r];
      match r.canonical {
        case Unsupported =>
        case Broken =>
          return None;
        case Supported(record) =>
          GroupSupported(m, data.records[..i], r);
          m := m[r.jet := Group(m, r.jet) + [record]];
      }
    }
    assert data.records[..|data.records|] == data.records;
    return Some(m);
  }

  // ---------------------------------------------------------------------
  // Jet drops
  // ---------------------------------------------------------------------

  /** Every state record stands after its predecessor. */
  ghost predicate PredecessorsFirst(rs: seq<Record>) {
    forall i, j :: 0 <= i < |rs| && 0 <= j < |rs| && Precedes(rs[i], rs[j]) && i != j ==> i < j
  }

  predicate Precedes(a: Record, b: Record) {
    SameObject(a, b) && b.prev == a.ref
  }

  /** `drop` is what `jet` must yield for its records `rs`. */
  ghost predicate DropOf(drop: JetDrop, jet: Jet, rs: seq<Record>) {
    && drop.prefix == (if jet.id.valid then jet.id.prefix else "")
    && drop.hash == jet.hash && drop.prevDropHashes == jet.prevDropHashes
    && |drop.records| == |rs|
    && (RefIdentity(rs) ==> Permutation(drop.records, rs) && PredecessorsFirst(drop.records))
  }

  lemma SortedDrop(rs: seq<Record>, ch: Choices)
    requires ValidChoices(rs, ch) && RefIdentity(rs) && SortWith(rs, ch).Ok?
    ensures var out := SortWith(rs, ch).records; Permutation(out, rs) && PredecessorsFirst(out)
  {
    var out := SortWith(rs, ch).records;
    SortConserves(rs, ch);
    forall i, j | 0 <= i < |out| && 0 <= j < |out| && Precedes(out[i], out[j]) && i != j ensures i < j {
      PredecessorFirst(rs, ch, i, j);
    }
  }

  method GetJetDrop(jet: Jet, rs: seq<Record>) returns (drop: Option<JetDrop>)
    ensures drop.Some? ==> DropOf(drop.value, jet, rs) && SortedTo(rs, drop.value.records)
    ensures RefIdentity(rs) ==> (drop.Some? <==> Sortable(rs))
  {
    var prefix := if jet.id.valid then jet.id.prefix else "";
    var r := SortRecords.SortRecords(rs);
    ghost var ch :| ValidChoices(rs, ch) && r == SortWith(rs, ch);
    SortTheorem(rs, ch);
    if r.Err? {
      return None;
    }
    if RefIdentity(rs) {
      SortedDrop(rs, ch);
    }
    return Some(JetDrop(prefix, r.records, jet.hash, jet.prevDropHashes));
  }

  /** `from` lists, in order, the jets that yielded a drop. */
  ghost predicate Emitted(data: PulseData, n: nat, drops: seq<JetDrop>, from: seq<nat>)
    requires n <= |data.jets|
  {
    Ascending(from, n) && AllEmitted(data, drops, from) && AllKept(data, n, from)
  }

  predicate Ascending(from: seq<nat>, n: nat) {
    && (forall a, b :: 0 <= a < b < |from| ==> from[a] < from[b])
    && (forall k :: 0 <= k < |from| ==> from[k] < n)
  }

  ghost predicate AllEmitted(data: PulseData, drops: seq<JetDrop>, from: seq<nat>) {
    |from| == |drops| && forall k :: 0 <= k < |from| ==> EmittedAt(data, drops[k], from[k])
  }

  ghost predicate AllKept(data: PulseData, n: nat, from: seq<nat>)
    requires n <= |data.jets|
  {
    forall i :: 0 <= i < n ==> Kept(data, i, i in from)
  }

  ghost predicate EmittedAt(data: PulseData, drop: JetDrop, i: nat) {
    i < |data.jets| && DropOf(drop, data.jets[i], RecordsOf(data.records, data.jets[i].id))
  }

  /** A listed jet is left out exactly when its records do not form chains. */
  ghost predicate Kept(data: PulseData, i: nat, kept: bool)
    requires i < |data.jets|
  {
    var rs := RecordsOf(data.records, data.jets[i].id);
    RefIdentity(rs) ==> (kept <==> Sortable(rs))
  }

  /** `drop` is one that hash map iteration may make of the i-th listed jet. */
  ghost predicate SortedAt(data: PulseData, drop: JetDrop, i: nat) {
    i < |data.jets| && SortedTo(RecordsOf(data.records, data.jets[i].id), drop.records)
  }

  ghost predicate AllSorted(data: PulseData, drops: seq<JetDrop>, from: seq<nat>) {
    |from| == |drops| && forall k :: 0 <= k < |from| ==> SortedAt(data, drops[k], from[k])
  }

  lemma AllSortedSnoc(data: PulseData, drops: seq<JetDrop>, from: seq<nat>, drop: JetDrop, i: nat)
    requires AllSorted(data, drops, from) && SortedAt(data, drop, i)
    ensures AllSorted(data, drops + [drop], from + [i])
  {
  }

  method Transform(data: PulseData) returns (r: Outcome, ghost from: seq<nat>)
    ensures r.Failed? <==> HasBroken(data.records)
    ensures r.Drops? ==> Emitted(data, |data.jets|, r.drops, from) && AllSorted(data, r.drops, from)
  {
    from := [];
    var m := GetRecords(data);
    if m.None? {
      return Failed, [];
    }
    var drops := [];
    for i := 0 to |data.jets|
      invariant Emitted(data, i, drops, from) && AllSorted(data, drops, from)
    {
      var jet := data.jets[i];
      var rs := Group(m.value, jet.id);
      assert rs == RecordsOf(data.records, jet.id);
      var drop := GetJetDrop(jet, rs);
      EmitStep(data, i, drops, from, drop);
      if drop.Some? {
        AllSortedSnoc(data, drops, from, drop.value, i);
        drops := drops + [drop.value];
        from := from + [i];
      }
    }
    return Drops(drops), from;
  }

  lemma AllEmittedSnoc(data: PulseData, drops: seq<JetDrop>, from: seq<nat>, drop: JetDrop, i: nat)
    requires AllEmitted(data, drops, from) && EmittedAt(data, drop, i)
    ensures AllEmitted(data, drops + [drop], from + [i])
  {
  }

  lemma AllKeptStep(data: PulseData, i: nat, from: seq<nat>, from': seq<nat>)
    requires i < |data.jets| && AllKept(data, i, from) && Kept(data, i, i in from')
    requires forall k :: 0 <= k < i ==> (k in from <==> k in from')
    ensures AllKept(data, i + 1, from')
  {
    forall k | 0 <= k < i + 1 ensures Kept(data, k, k in from') {
      if k < i {
        assert Kept(data, k, k in from);
        assert (k in from) == (k in from');
      }
    }
  }

  lemma EmitStep(data: PulseData, i: nat, drops: seq<JetDrop>, from: seq<nat>, drop: Option<JetDrop>)
    requires i < |data.jets| && Emitted(data, i, drops, from)
    requires drop.Some? ==> EmittedAt(data, drop.value, i)
    requires var rs := RecordsOf(data.records, data.jets[i].id); RefIdentity(rs) ==> (drop.Some? <==> Sortable(rs))
    ensures drop.Some? ==> Emitted(data, i + 1, drops + [drop.value], from + [i])
    ensures drop.None? ==> Emitted(data, i + 1, drops, from)
  {
    assert i !in from;
    if drop.Some? {
      AllEmittedSnoc(data, drops, from, drop.value, i);
      AllKeptStep(data, i, from, from + [i]);
    } else {
      AllKeptStep(data, i, from, from);
    }
  }
}
