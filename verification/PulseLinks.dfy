/**
 Reading back linked pulses and linked jet drops.
 */
module PulseLinks {
  import opened Common
  import opened Tables
  import JetTree

  // ---------------------------------------------------------------------
  // One pulse
  // ---------------------------------------------------------------------

  const UNKNOWN := -1

  /** First row by primary key whose prev is `n`. */
  ghost function NextOf(db: Db, n: int): (m: int)
    ensures WithPrev(db, n) == {} ==> m == UNKNOWN
    ensures WithPrev(db, n) != {} ==> IsLeast(m, WithPrev(db, n))
  {
    if WithPrev(db, n) == {} then UNKNOWN else
      LeastExists(WithPrev(db, n));
      var m :| IsLeast(m, WithPrev(db, n));
      m
  }

  function PrevOf(db: Db, prev: int): int {
    if prev in db.pulses then prev else UNKNOWN
  }

  datatype Row = Row(no: int, pulse: Pulse)

  /** What reading a single pulse returns. */
  ghost function View(db: Db, n: int): Row
    requires n in db.pulses
  {
    var p := db.pulses[n];
    Row(n, p.(next := NextOf(db, n), prev := PrevOf(db, p.prev)))
  }

  predicate LinkedTo(db: Db, m: int, n: int) {
    m in db.pulses && db.pulses[m].prev == n
  }

  /** The first stored pulse linked to `n`, or -1. */
  ghost predicate FirstLinked(db: Db, n: int, m: int) {
    if exists k :: LinkedTo(db, k, n) then LinkedTo(db, m, n) && forall k :: LinkedTo(db, k, n) ==> m <= k else m == -1
  }

  method LookUpNext(db: Db, n: int) returns (m: int)
    ensures m == NextOf(db, n) && FirstLinked(db, n, m)
  {
    var linked := WithPrev(db, n);
    assert forall k :: k in linked <==> LinkedTo(db, k, n);
    m := UNKNOWN;
    if linked != {} {
      m := Least(linked);
    }
  }

  /** Reading one pulse: its next is the first stored pulse linked to it, its prev a stored one; else -1. */
  method GetPulse(db: Db, n: int) returns (r: Option<Row>)
    ensures r.Some? <==> n in db.pulses
    ensures r.Some? ==> r.value == View(db, n) && FirstLinked(db, n, r.value.pulse.next)
    ensures r.Some? ==> r.value.pulse.prev == if db.pulses[n].prev in db.pulses then db.pulses[n].prev else -1
  {
    if n !in db.pulses {
      return None;
    }
    var next := LookUpNext(db, n);
    var p := db.pulses[n];
    return Some(Row(n, p.(next := next, prev := PrevOf(db, p.prev))));
  }

  // ---------------------------------------------------------------------
  // A page of pulses
  // ---------------------------------------------------------------------

  /** Rows as the query returns them: stored ones, in ascending order. */
  ghost predicate Page(db: Db, rows: seq<Row>) {
    && (forall i :: 0 <= i < |rows| ==> rows[i].no in db.pulses && rows[i].pulse == db.pulses[rows[i].no])
    && (forall i, j :: 0 <= i < j < |rows| ==> rows[i].no < rows[j].no)
  }

  /** The columns the fill leaves in row i of an ascending page; `edge` comes from a lookup. */
  ghost function FilledPrev(rows: seq<Row>, i: nat, edge: int): int
    requires i < |rows|
  {
    if i == 0 then edge
    else if rows[i].pulse.prev == rows[i - 1].no then rows[i].pulse.prev else UNKNOWN
  }

  ghost function FilledNext(rows: seq<Row>, i: nat, edge: int): int
    requires i < |rows|
  {
    if i == |rows| - 1 then edge
    else if rows[i + 1].pulse.prev == rows[i].no then rows[i + 1].no else UNKNOWN
  }

  ghost function Filled(rows: seq<Row>, i: nat, edgePrev: int, edgeNext: int): Row
    requires i < |rows|
  {
    Row(rows[i].no, rows[i].pulse.(prev := FilledPrev(rows, i, edgePrev), next := FilledNext(rows, i, edgeNext)))
  }

  function SetPrev(r: Row, prev: int): Row { r.(pulse := r.pulse.(prev := prev)) }
  function SetNext(r: Row, next: int): Row { r.(pulse := r.pulse.(next := next)) }

  /** Row k while the loop of an ascending fill stands at row i. */
  ghost function AscendingRow(rows: seq<Row>, i: nat, k: nat, edgePrev: int, edgeNext: int): Row
    requires k < |rows|
  {
    var p := rows[k].pulse;
    Row(rows[k].no, p.(
      prev := if i < k then FilledPrev(rows, k, edgePrev) else p.prev,
      next := if i <= k < |rows| - 1 then FilledNext(rows, k, edgeNext) else p.next))
  }

  /** The in-place fill of an ascending page. */
  method FillAscending(edgePrev: int, a: array<Row>, edgeNext: int)
    modifies a
    ensures forall i :: 0 <= i < a.Length ==> a[i] == Filled(old(a[..]), i, edgePrev, edgeNext)
  {
    ghost var rows := a[..];
    var n := a.Length;
    if n == 0 {
      return;
    }
    var i := n - 1;
    while i > 0
      invariant 0 <= i < n
      invariant forall k :: 0 <= k < n ==> a[k] == AscendingRow(rows, i, k, edgePrev, edgeNext)
    {
      assert a[i].pulse.prev == rows[i].pulse.prev && a[i - 1] == rows[i - 1];
      if a[i].pulse.prev == a[i - 1].no {
        a[i - 1] := SetNext(a[i - 1], a[i].no);
      } else {
        a[i] := SetPrev(a[i], UNKNOWN);
        a[i - 1] := SetNext(a[i - 1], UNKNOWN);
      }
      i := i - 1;
    }
    assert i == 0;
    a[0] := SetPrev(a[0], edgePrev);
    a[n - 1] := SetNext(a[n - 1], edgeNext);
  }

  /** The same columns, told for a descending page. */
  ghost function DescendingPrev(rows: seq<Row>, i: nat, edge: int): int
    requires i < |rows|
  {
    if i == |rows| - 1 then edge
    else if rows[i].pulse.prev == rows[i + 1].no then rows[i].pulse.prev else UNKNOWN
  }

  ghost function DescendingNext(rows: seq<Row>, i: nat, edge: int): int
    requires i < |rows|
  {
    if i == 0 then edge
    else if rows[i - 1].pulse.prev == rows[i].no then rows[i - 1].no else UNKNOWN
  }

  ghost function DescendingFilled(rows: seq<Row>, i: nat, edgePrev: int, edgeNext: int): Row
    requires i < |rows|
  {
    Row(rows[i].no,
        rows[i].pulse.(prev := DescendingPrev(rows, i, edgePrev), next := DescendingNext(rows, i, edgeNext)))
  }

  /** Row k while the loop of a descending fill stands at row i. */
  ghost function DescendingRow(rows: seq<Row>, i: nat, k: nat, edgePrev: int, edgeNext: int): Row
    requires k < |rows|
  {
    var p := rows[k].pulse;
    Row(rows[k].no, p.(
      prev := if k < i then DescendingPrev(rows, k, edgePrev) else p.prev,
      next := if 0 < k <= i then DescendingNext(rows, k, edgeNext) else p.next))
  }

  /** The in-place fill of a descending page. */
  method FillDescending(edgePrev: int, a: array<Row>, edgeNext: int)
    modifies a
    ensures forall i :: 0 <= i < a.Length ==> a[i] == DescendingFilled(old(a[..]), i, edgePrev, edgeNext)
  {
    ghost var rows := a[..];
    var n := a.Length;
    if n == 0 {
      return;
    }
    var i := 0;
    while i < n - 1
      invariant 0 <= i < n
      invariant forall k :: 0 <= k < n ==> a[k] == DescendingRow(rows, i, k, edgePrev, edgeNext)
    {
      if a[i].pulse.prev == a[i + 1].no {
        a[i + 1] := SetNext(a[i + 1], a[i].no);
      } else {
        a[i + 1] := SetNext(a[i + 1], UNKNOWN);
        a[i] := SetPrev(a[i], UNKNOWN);
      }
      i := i + 1;
    }
    a[0] := SetNext(a[0], edgeNext);
    a[n - 1] := SetPrev(a[n - 1], edgePrev);
  }

  function Reverse(rows: seq<Row>): (r: seq<Row>)
    ensures |r| == |rows| && forall i :: 0 <= i < |rows| ==> r[i] == rows[|rows| - 1 - i]
  {
    seq(|rows|, i requires 0 <= i < |rows| => rows[|rows| - 1 - i])
  }

  /** Descending is ascending read backwards, on the same rows. */
  lemma MirrorFill(rows: seq<Row>, i: nat, edgePrev: int, edgeNext: int)
    requires i < |rows|
    ensures DescendingFilled(rows, i, edgePrev, edgeNext) ==
      Filled(Reverse(rows), |rows| - 1 - i, edgePrev, edgeNext)
  {
    var up, k := Reverse(rows), |rows| - 1 - i;
    assert up[k] == rows[i];
    if k > 0 {
      assert up[k - 1] == rows[i + 1];
    }
    if i > 0 {
      assert up[k + 1] == rows[i - 1];
    }
  }

  // ---------------------------------------------------------------------
  // When a page agrees with reading each pulse alone
  // ---------------------------------------------------------------------

  /** The fill with the two lookups made for the ends of the page. */
  ghost function EdgeFilled(db: Db, rows: seq<Row>, i: nat): Row
    requires i < |rows|
  {
    Filled(rows, i, PrevOf(db, rows[0].pulse.prev), NextOf(db, rows[|rows| - 1].no))
  }

  ghost predicate NonNegative(db: Db) {
    forall n :: n in db.pulses ==> n >= 0
  }

  ghost predicate PrevDisputed(db: Db, a: int, b: int)
    requires b in db.pulses
  {
    db.pulses[b].prev in db.pulses && db.pulses[b].prev != a
  }

  ghost predicate NextDisputed(db: Db, a: int, b: int)
    requires b in db.pulses
  {
    exists m :: m in WithPrev(db, a) && (db.pulses[b].prev != a || m < b)
  }

  /** Neighbouring rows a and b whose fill a lookup contradicts. */
  ghost predicate DisputedAt(db: Db, rows: seq<Row>, i: nat)
    requires 0 < i < |rows| && rows[i].no in db.pulses
  {
    PrevDisputed(db, rows[i - 1].no, rows[i].no) || NextDisputed(db, rows[i - 1].no, rows[i].no)
  }

  ghost predicate Undisputed(db: Db, rows: seq<Row>)
    requires Page(db, rows)
  {
    forall i :: 0 < i < |rows| ==> !DisputedAt(db, rows, i)
  }

  lemma PrevExact(db: Db, a: int, b: int)
    requires NonNegative(db) && a in db.pulses && b in db.pulses
    ensures PrevOf(db, db.pulses[b].prev) == (if db.pulses[b].prev == a then a else UNKNOWN) <==>
      !PrevDisputed(db, a, b)
  {
  }

  lemma NextExact(db: Db, a: int, b: int)
    requires NonNegative(db) && b in db.pulses
    ensures NextOf(db, a) == (if db.pulses[b].prev == a then b else UNKNOWN) <==> !NextDisputed(db, a, b)
  {
    var linked := WithPrev(db, a);
    SomeMember(linked);
    if db.pulses[b].prev == a {
      assert b in linked;
    } else if linked != {} {
      assert NextOf(db, a) in linked;
    }
  }

  ghost predicate AllViews(db: Db, rows: seq<Row>)
    requires Page(db, rows)
  {
    forall i :: 0 <= i < |rows| ==> EdgeFilled(db, rows, i) == View(db, rows[i].no)
  }

  ghost predicate RowUndisputed(db: Db, rows: seq<Row>, i: nat)
    requires Page(db, rows) && i < |rows|
  {
    && (i == 0 || !PrevDisputed(db, rows[i - 1].no, rows[i].no))
    && (i == |rows| - 1 || !NextDisputed(db, rows[i].no, rows[i + 1].no))
  }

  lemma RowIsView(db: Db, rows: seq<Row>, i: nat)
    requires NonNegative(db) && Page(db, rows) && i < |rows|
    ensures EdgeFilled(db, rows, i) == View(db, rows[i].no) <==> RowUndisputed(db, rows, i)
  {
    if i > 0 {
      PrevExact(db, rows[i - 1].no, rows[i].no);
    }
    if i < |rows| - 1 {
      NextExact(db, rows[i].no, rows[i + 1].no);
    }
  }

  /** For any stored links: the page holds the single lookups exactly when no pair is disputed. */
  lemma PageIsViews(db: Db, rows: seq<Row>)
    requires NonNegative(db) && Page(db, rows)
    ensures AllViews(db, rows) <==> Undisputed(db, rows)
  {
    if AllViews(db, rows) {
      forall i | 0 < i < |rows| ensures !DisputedAt(db, rows, i) {
        RowIsView(db, rows, i);
        RowIsView(db, rows, i - 1);
      }
    } else {
      var i :| 0 <= i < |rows| && EdgeFilled(db, rows, i) != View(db, rows[i].no);
      RowIsView(db, rows, i);
      assert (i > 0 && DisputedAt(db, rows, i)) || (i < |rows| - 1 && DisputedAt(db, rows, i + 1));
    }
  }

  /** Links go down, and no stored pulse lies between a pulse and its prev. */
  ghost predicate WellLinked(db: Db) {
    && (forall n :: n in db.pulses ==> db.pulses[n].prev < n)
    && (forall m, n :: m in db.pulses && n in db.pulses && m < n ==> m <= db.pulses[n].prev)
  }

  /** A stored pulse strictly between a and b that is linked to one of them. */
  ghost predicate Hides(db: Db, a: int, b: int)
    requires b in db.pulses
  {
    exists m :: m in db.pulses && a < m < b && (db.pulses[b].prev == m || db.pulses[m].prev == a)
  }

  ghost predicate HidesLink(db: Db, rows: seq<Row>)
    requires Page(db, rows)
  {
    exists i :: 0 < i < |rows| && Hides(db, rows[i - 1].no, rows[i].no)
  }

  lemma DisputedIsHidden(db: Db, a: int, b: int)
    requires WellLinked(db) && a in db.pulses && b in db.pulses && a < b
    ensures PrevDisputed(db, a, b) || NextDisputed(db, a, b) <==> Hides(db, a, b)
  {
    if NextDisputed(db, a, b) {
      var m :| m in WithPrev(db, a) && (db.pulses[b].prev != a || m < b);
      assert m in db.pulses && db.pulses[m].prev == a;
      assert a < m < b;
    }
    if m :| m in db.pulses && a < m < b && (db.pulses[b].prev == m || db.pulses[m].prev == a) {
      assert db.pulses[m].prev == a ==> m in WithPrev(db, a);
    }
  }

  /** On well-linked pulses: exactly when no pulse hidden between two rows is linked to one of them. */
  lemma HiddenLinks(db: Db, rows: seq<Row>)
    requires NonNegative(db) && WellLinked(db) && Page(db, rows)
    ensures AllViews(db, rows) <==> !HidesLink(db, rows)
  {
    PageIsViews(db, rows);
    forall i | 0 < i < |rows| ensures DisputedAt(db, rows, i) <==> Hides(db, rows[i - 1].no, rows[i].no) {
      DisputedIsHidden(db, rows[i - 1].no, rows[i].no);
    }
  }

  /** A timestamp filter can hide a neighbour: the page then denies a link that exists. */
  lemma HiddenNeighbour()
    ensures var p := (prev: int) => Pulse(prev, 0, true, true, 0, 0, 0);
      var db := Db(map[10 := p(9), 11 := p(10), 12 := p(11)], map[], map[]);
      var rows := [Row(10, p(9)), Row(12, p(11))];
      WellLinked(db) && Page(db, rows) && EdgeFilled(db, rows, 1) != View(db, 12)
  {
  }

  // ---------------------------------------------------------------------
  // The query
  // ---------------------------------------------------------------------

  /** The optional conditions of a listing; `from` is an upper bound in both directions. */
  datatype Filter = Filter(
    from: Option<int>, timestampLte: Option<int>, timestampGte: Option<int>,
    lte: Option<int>, lt: Option<int>, gte: Option<int>, gt: Option<int>)

  predicate InRange(f: Filter, n: int) {
    && (f.lte.Some? ==> n <= f.lte.value) && (f.lt.Some? ==> n < f.lt.value)
    && (f.gte.Some? ==> n >= f.gte.value) && (f.gt.Some? ==> n > f.gt.value)
    && (f.from.Some? ==> n <= f.from.value)
  }

  predicate InTime(f: Filter, p: Pulse) {
    && (f.timestampGte.Some? ==> p.timestamp >= f.timestampGte.value)
    && (f.timestampLte.Some? ==> p.timestamp <= f.timestampLte.value)
  }

  function Selected(db: Db, f: Filter): set<int> {
    set n | n in db.pulses && InRange(f, n) && InTime(f, db.pulses[n])
  }

  /** The whole ascending listing of the pulses in `s`. */
  ghost predicate Lists(db: Db, rows: seq<Row>, s: set<int>) {
    && Page(db, rows)
    && (forall i :: 0 <= i < |rows| ==> rows[i].no in s)
    && (forall n :: n in s ==> Shows(rows, n))
  }

  ghost predicate Shows(rows: seq<Row>, n: int) {
    exists i :: 0 <= i < |rows| && rows[i].no == n
  }

  /** Sorting as the database does it. */
  method List(db: Db, s: set<int>) returns (rows: seq<Row>)
    requires s <= db.pulses.Keys
    ensures Lists(db, rows, s)
  {
    rows := [];
    var todo := s;
    while todo != {}
      invariant todo <= s && Page(db, rows)
      invariant forall i :: 0 <= i < |rows| ==> rows[i].no in s
      invariant forall i, n :: 0 <= i < |rows| && n in todo ==> rows[i].no < n
      invariant forall n :: n in s && n !in todo ==> Shows(rows, n)
    {
      var n := Least(todo);
      ghost var before := rows;
      rows := rows + [Row(n, db.pulses[n])];
      assert rows[|before|].no == n;
      forall k | k in s && k !in todo - {n} ensures Shows(rows, k) {
        if k != n {
          var i :| 0 <= i < |before| && before[i].no == k;
          assert rows[i].no == k;
        }
      }
      todo := todo - {n};
    }
  }

  function Window<T>(rows: seq<T>, limit: nat, offset: nat): seq<T> {
    if offset >= |rows| then []
    else if offset + limit >= |rows| then rows[offset..]
    else rows[offset..offset + limit]
  }

  /** What the query returns: a window of the listing in the wanted direction. */
  ghost predicate Fetched(db: Db, f: Filter, asc: bool, limit: nat, offset: nat, rows: seq<Row>) {
    exists all :: Lists(db, all, Selected(db, f)) && rows == Window(if asc then all else Reverse(all), limit, offset)
  }

  function Upward(rows: seq<Row>, asc: bool): seq<Row> {
    if asc then rows else Reverse(rows)
  }

  lemma UpwardWindow(all: seq<Row>, asc: bool, limit: nat, offset: nat) returns (low: nat, high: nat)
    ensures low <= high <= |all|
    ensures Upward(Window(if asc then all else Reverse(all), limit, offset), asc) == all[low..high]
  {
    var listed := if asc then all else Reverse(all);
    low := if offset < |all| then offset else |all|;
    high := if offset + limit < |all| then offset + limit else |all|;
    assert Window(listed, limit, offset) == listed[low..high];
    if !asc {
      low, high := |all| - high, |all| - low;
      assert Reverse(listed[|all| - high..|all| - low]) == all[low..high];
    }
  }

  /** Every page of the query, read upwards, is a slice of the listing. */
  lemma FetchedIsSlice(db: Db, f: Filter, asc: bool, limit: nat, offset: nat, rows: seq<Row>)
    returns (all: seq<Row>, low: nat, high: nat)
    requires Fetched(db, f, asc, limit, offset, rows)
    ensures Lists(db, all, Selected(db, f)) && low <= high <= |all| && Upward(rows, asc) == all[low..high]
  {
    all :| Lists(db, all, Selected(db, f)) && rows == Window(if asc then all else Reverse(all), limit, offset);
    low, high := UpwardWindow(all, asc, limit, offset);
  }

  lemma SliceIsPage(db: Db, all: seq<Row>, low: nat, high: nat)
    requires Page(db, all) && low <= high <= |all|
    ensures Page(db, all[low..high])
  {
  }

  lemma FetchedIsPage(db: Db, f: Filter, asc: bool, limit: nat, offset: nat, rows: seq<Row>)
    requires Fetched(db, f, asc, limit, offset, rows)
    ensures Page(db, Upward(rows, asc))
  {
    var all, low, high := FetchedIsSlice(db, f, asc, limit, offset, rows);
    SliceIsPage(db, all, low, high);
  }

  lemma SliceIsGapless(db: Db, all: seq<Row>, low: nat, high: nat, rows: seq<Row>)
    requires Page(db, all) && !HidesLink(db, all) && low <= high <= |all|
    requires rows == all[low..high] && Page(db, rows)
    ensures !HidesLink(db, rows)
  {
    forall i | 0 < i < |rows| ensures !Hides(db, rows[i - 1].no, rows[i].no) {
      assert rows[i - 1] == all[low + i - 1] && rows[i] == all[low + i];
      assert !Hides(db, all[low + i - 1].no, all[low + i].no);
    }
  }

  lemma ListIsGapless(db: Db, f: Filter, all: seq<Row>)
    requires Lists(db, all, Selected(db, f)) && f.timestampLte.None? && f.timestampGte.None?
    ensures !HidesLink(db, all)
  {
    forall i | 0 < i < |all| ensures !Hides(db, all[i - 1].no, all[i].no) {
      NoneHidden(db, f, all, i);
    }
  }

  lemma NoneHidden(db: Db, f: Filter, all: seq<Row>, i: nat)
    requires Lists(db, all, Selected(db, f)) && f.timestampLte.None? && f.timestampGte.None? && 0 < i < |all|
    ensures !Hides(db, all[i - 1].no, all[i].no)
  {
    var a, b := all[i - 1].no, all[i].no;
    assert a in Selected(db, f) && b in Selected(db, f);
    forall m | m in db.pulses ensures !(a < m < b) {
      if a < m < b && m in Selected(db, f) {
        var k :| 0 <= k < |all| && all[k].no == m;
        Between(db, all, i, k);
      }
    }
  }

  lemma Between(db: Db, all: seq<Row>, i: nat, k: nat)
    requires Page(db, all) && 0 < i < |all| && k < |all|
    ensures !(all[i - 1].no < all[k].no < all[i].no)
  {
  }

  /** Without a timestamp filter no window, in any direction, hides a pulse. */
  lemma WindowIsGapless(db: Db, f: Filter, asc: bool, limit: nat, offset: nat, rows: seq<Row>)
    requires Fetched(db, f, asc, limit, offset, rows) && f.timestampLte.None? && f.timestampGte.None?
    ensures Page(db, Upward(rows, asc)) && !HidesLink(db, Upward(rows, asc))
  {
    var all, low, high := FetchedIsSlice(db, f, asc, limit, offset, rows);
    SliceIsPage(db, all, low, high);
    ListIsGapless(db, f, all);
    SliceIsGapless(db, all, low, high, Upward(rows, asc));
  }

  // ---------------------------------------------------------------------
  // Which rows a page has
  // ---------------------------------------------------------------------

  /** The stored pulses that meet every given bound. */
  ghost function Matching(db: Db, f: Filter): set<int> {
    set n | n in db.pulses
      && (f.from == None || n <= f.from.value)
      && (f.lte == None || n <= f.lte.value) && (f.lt == None || n < f.lt.value)
      && (f.gte == None || f.gte.value <= n) && (f.gt == None || f.gt.value < n)
      && (f.timestampLte == None || db.pulses[n].timestamp <= f.timestampLte.value)
      && (f.timestampGte == None || f.timestampGte.value <= db.pulses[n].timestamp)
  }

  lemma SelectedIsMatching(db: Db, f: Filter)
    ensures Selected(db, f) == Matching(db, f)
  {
  }

  /** Members of `s` that come before `n` in the wanted direction. */
  ghost function Earlier(s: set<int>, asc: bool, n: int): set<int> {
    set m | m in s && if asc then m < n else n < m
  }

  /** Row i is the matching pulse with exactly offset + i of them before it. */
  ghost predicate InPosition(s: set<int>, asc: bool, offset: nat, rows: seq<Row>) {
    forall i :: 0 <= i < |rows| ==> rows[i].no in s && |Earlier(s, asc, rows[i].no)| == offset + i
  }

  ghost function Numbers(rows: seq<Row>): set<int> {
    set i | 0 <= i < |rows| :: rows[i].no
  }

  lemma {:induction false} DistinctNumbers(rows: seq<Row>)
    requires forall i, j :: 0 <= i < j < |rows| ==> rows[i].no != rows[j].no
    ensures |Numbers(rows)| == |rows|
  {
    if rows != [] {
      var n := |rows| - 1;
      DistinctNumbers(rows[..n]);
      forall k ensures k in Numbers(rows) <==> k in Numbers(rows[..n]) || k == rows[n].no {
        if k in Numbers(rows) {
          var i :| 0 <= i < |rows| && rows[i].no == k;
          assert i < n ==> rows[..n][i].no == k;
        }
        if k in Numbers(rows[..n]) {
          var i :| 0 <= i < n && rows[..n][i].no == k;
          assert rows[i].no == k;
        }
      }
      assert rows[n].no !in Numbers(rows[..n]);
      assert Numbers(rows) == Numbers(rows[..n]) + {rows[n].no};
    }
  }

  lemma PartSize(db: Db, all: seq<Row>, low: nat, high: nat)
    requires Page(db, all) && low <= high <= |all|
    ensures |Numbers(all[low..high])| == high - low
  {
    DistinctNumbers(all[low..high]);
  }

  lemma InPart(all: seq<Row>, low: nat, high: nat, m: int)
    requires low <= high <= |all|
    ensures m in Numbers(all[low..high]) <==> exists i :: low <= i < high && all[i].no == m
  {
    if i :| low <= i < high && all[i].no == m {
      assert all[low..high][i - low].no == m;
    }
    if m in Numbers(all[low..high]) {
      var i :| 0 <= i < high - low && all[low..high][i].no == m;
      assert all[low + i].no == m;
    }
  }

  lemma Position(db: Db, all: seq<Row>, s: set<int>, m: int) returns (i: nat)
    requires Lists(db, all, s) && m in s
    ensures i < |all| && all[i].no == m
  {
    assert Shows(all, m);
    i :| 0 <= i < |all| && all[i].no == m;
  }

  lemma OrderAt(db: Db, all: seq<Row>, i: nat, j: nat)
    requires Page(db, all) && i < |all| && j < |all|
    ensures all[i].no < all[j].no <==> i < j
  {
  }

  /** What comes before the j-th row upwards, and what comes before it downwards. */
  lemma EarlierUp(db: Db, all: seq<Row>, s: set<int>, j: nat)
    requires Lists(db, all, s) && j < |all|
    ensures Earlier(s, true, all[j].no) == Numbers(all[0..j])
  {
    forall m ensures m in Earlier(s, true, all[j].no) <==> m in Numbers(all[0..j]) {
      InPart(all, 0, j, m);
      if m in s {
        var i := Position(db, all, s, m);
        OrderAt(db, all, i, j);
      }
      if i :| 0 <= i < j && all[i].no == m {
        OrderAt(db, all, i, j);
      }
    }
  }

  lemma EarlierDown(db: Db, all: seq<Row>, s: set<int>, j: nat)
    requires Lists(db, all, s) && j < |all|
    ensures Earlier(s, false, all[j].no) == Numbers(all[j + 1..|all|])
  {
    forall m ensures m in Earlier(s, false, all[j].no) <==> m in Numbers(all[j + 1..|all|]) {
      InPart(all, j + 1, |all|, m);
      if m in s {
        var i := Position(db, all, s, m);
        OrderAt(db, all, j, i);
      }
      if i :| j + 1 <= i < |all| && all[i].no == m {
        OrderAt(db, all, j, i);
      }
    }
  }

  lemma Ranks(db: Db, all: seq<Row>, s: set<int>, j: nat)
    requires Lists(db, all, s) && j < |all|
    ensures |Earlier(s, true, all[j].no)| == j && |Earlier(s, false, all[j].no)| == |all| - 1 - j
  {
    EarlierUp(db, all, s, j);
    EarlierDown(db, all, s, j);
    PartSize(db, all, 0, j);
    PartSize(db, all, j + 1, |all|);
  }

  lemma ListSize(db: Db, all: seq<Row>, s: set<int>)
    requires Lists(db, all, s)
    ensures |all| == |s|
  {
    PartSize(db, all, 0, |all|);
    forall n | n in s ensures n in Numbers(all) {
      var i :| 0 <= i < |all| && all[i].no == n;
    }
    assert all[0..|all|] == all;
    assert Numbers(all) == s;
  }

  function Smaller(a: int, b: int): int {
    if a < b then a else b
  }

  /** The k-th row of the listing in either direction. */
  lemma ListedPosition(db: Db, s: set<int>, all: seq<Row>, asc: bool, k: nat)
    requires Lists(db, all, s) && k < |all|
    ensures var n := (if asc then all else Reverse(all))[k].no; n in s && |Earlier(s, asc, n)| == k
  {
    Ranks(db, all, s, if asc then k else |all| - 1 - k);
  }

  lemma WindowAt<T>(listed: seq<T>, limit: nat, offset: nat, i: nat)
    requires i < |Window(listed, limit, offset)|
    ensures offset + i < |listed| && Window(listed, limit, offset)[i] == listed[offset + i]
  {
  }

  /** A page has the rows from position `offset` on, `limit` of them or all that are left. */
  lemma PagePositions(db: Db, s: set<int>, all: seq<Row>, asc: bool, limit: nat, offset: nat, rows: seq<Row>)
    requires Lists(db, all, s) && rows == Window(if asc then all else Reverse(all), limit, offset)
    ensures InPosition(s, asc, offset, rows)
    ensures |rows| == if offset >= |s| then 0 else Smaller(limit, |s| - offset)
  {
    ListSize(db, all, s);
    forall i | 0 <= i < |rows| ensures rows[i].no in s && |Earlier(s, asc, rows[i].no)| == offset + i {
      WindowAt(if asc then all else Reverse(all), limit, offset, i);
      ListedPosition(db, s, all, asc, offset + i);
    }
  }

  ghost function FilledIn(rows: seq<Row>, asc: bool, i: nat, edgePrev: int, edgeNext: int): Row
    requires i < |rows|
  {
    if asc then Filled(rows, i, edgePrev, edgeNext) else DescendingFilled(rows, i, edgePrev, edgeNext)
  }

  /** Row i of a page, in either direction, is a row of the upward page's fill. */
  lemma FilledUpward(db: Db, rows: seq<Row>, asc: bool, i: nat)
    requires i < |rows|
    ensures var up, n := Upward(rows, asc), |rows| - 1;
      FilledIn(rows, asc, i, PrevOf(db, up[0].pulse.prev), NextOf(db, up[n].no)) ==
        EdgeFilled(db, up, if asc then i else n - i)
  {
    var up, n := Upward(rows, asc), |rows| - 1;
    if !asc {
      MirrorFill(rows, i, PrevOf(db, up[0].pulse.prev), NextOf(db, up[n].no));
    }
  }

  lemma AllFilledUpward(db: Db, rows: seq<Row>, asc: bool, page: seq<Row>)
    requires |page| == |rows| > 0
    requires var up, n := Upward(rows, asc), |rows| - 1;
      forall i :: 0 <= i < |rows| ==>
        page[i] == FilledIn(rows, asc, i, PrevOf(db, up[0].pulse.prev), NextOf(db, up[n].no))
    ensures FilledFrom(db, rows, asc, page) && Relinked(rows, page)
  {
    forall i | 0 <= i < |rows|
      ensures page[i] == EdgeFilled(db, Upward(rows, asc), if asc then i else |rows| - 1 - i)
    {
      FilledUpward(db, rows, asc, i);
    }
  }

  /** `page` is the fetched window with only its links rewritten. */
  ghost predicate Relinked(rows: seq<Row>, page: seq<Row>) {
    && |page| == |rows|
    && forall i :: 0 <= i < |rows| ==>
         page[i] == SetPrev(SetNext(rows[i], page[i].pulse.next), page[i].pulse.prev)
  }

  /** `page` is the fill of the window, row by row. */
  ghost predicate FilledFrom(db: Db, rows: seq<Row>, asc: bool, page: seq<Row>) {
    && |page| == |rows|
    && forall i :: 0 <= i < |rows| ==>
         page[i] == EdgeFilled(db, Upward(rows, asc), if asc then i else |rows| - 1 - i)
  }

  ghost predicate PageAgrees(db: Db, page: seq<Row>) {
    forall i :: 0 <= i < |page| ==> page[i].no in db.pulses && page[i] == View(db, page[i].no)
  }

  lemma AgreesUpward(db: Db, rows: seq<Row>, asc: bool, page: seq<Row>)
    requires Page(db, Upward(rows, asc)) && FilledFrom(db, rows, asc, page)
    ensures PageAgrees(db, page) <==> AllViews(db, Upward(rows, asc))
  {
    var up, n := Upward(rows, asc), |rows| - 1;
    if PageAgrees(db, page) {
      forall k | 0 <= k < |up| ensures EdgeFilled(db, up, k) == View(db, up[k].no) {
        var i := if asc then k else n - k;
        assert page[i] == View(db, page[i].no);
        assert page[i] == EdgeFilled(db, up, k);
      }
    }
    if AllViews(db, up) {
      forall i | 0 <= i < |page| ensures page[i].no in db.pulses && page[i] == View(db, page[i].no) {
        var k := if asc then i else n - i;
        assert EdgeFilled(db, up, k) == View(db, up[k].no);
      }
    }
  }

  /** The rewriting of a fetched window, lookups included. */
  method FillPage(db: Db, rows: seq<Row>, asc: bool) returns (page: seq<Row>)
    ensures Relinked(rows, page) && FilledFrom(db, rows, asc, page)
  {
    var n := |rows| - 1;
    if n < 0 {
      return [];
    }
    var a := new Row[|rows|](i requires 0 <= i < |rows| => rows[i]);
    assert a[..] == rows;
    var edgeNext := LookUpNext(db, rows[if asc then n else 0].no);
    var edgePrev := PrevOf(db, rows[if asc then 0 else n].pulse.prev);
    if asc {
      FillAscending(edgePrev, a, edgeNext);
    } else {
      FillDescending(edgePrev, a, edgeNext);
    }
    page := a[..];
    assert forall i :: 0 <= i < |rows| ==> page[i] == FilledIn(rows, asc, i, edgePrev, edgeNext);
    AllFilledUpward(db, rows, asc, page);
  }

  ghost predicate Untimed(f: Filter) {
    f.timestampLte == None && f.timestampGte == None
  }

  /** When a filled page agrees with reading each of its pulses alone. */
  lemma PageAgreement(db: Db, f: Filter, asc: bool, limit: nat, offset: nat, rows: seq<Row>, page: seq<Row>)
    requires Fetched(db, f, asc, limit, offset, rows) && FilledFrom(db, rows, asc, page)
    ensures Page(db, Upward(rows, asc))
    ensures NonNegative(db) ==> (PageAgrees(db, page) <==> Undisputed(db, Upward(rows, asc)))
    ensures NonNegative(db) && WellLinked(db) ==> (PageAgrees(db, page) <==> !HidesLink(db, Upward(rows, asc)))
    ensures NonNegative(db) && WellLinked(db) && Untimed(f) ==> PageAgrees(db, page)
  {
    FetchedIsPage(db, f, asc, limit, offset, rows);
    AgreesUpward(db, rows, asc, page);
    if NonNegative(db) {
      PageIsViews(db, Upward(rows, asc));
      if WellLinked(db) {
        HiddenLinks(db, Upward(rows, asc));
        if Untimed(f) {
          WindowIsGapless(db, f, asc, limit, offset, rows);
        }
      }
    }
  }

  lemma RelinkedPositions(s: set<int>, asc: bool, offset: nat, rows: seq<Row>, page: seq<Row>)
    requires InPosition(s, asc, offset, rows) && Relinked(rows, page)
    ensures InPosition(s, asc, offset, page)
  {
    forall i | 0 <= i < |page| ensures page[i].no in s && |Earlier(s, asc, page[i].no)| == offset + i {
      assert page[i].no == rows[i].no;
    }
  }

  /** The query itself: filters, order, limit, offset and total. */
  method Query(db: Db, f: Filter, asc: bool, limit: nat, offset: nat) returns (rows: seq<Row>, total: nat)
    ensures Fetched(db, f, asc, limit, offset, rows)
    ensures total == |Matching(db, f)| && InPosition(Matching(db, f), asc, offset, rows)
    ensures |rows| == if offset >= total then 0 else Smaller(limit, total - offset)
  {
    var selected := Selected(db, f);
    var all := List(db, selected);
    rows := Window(if asc then all else Reverse(all), limit, offset);
    total := |selected|;
    SelectedIsMatching(db, f);
    PagePositions(db, selected, all, asc, limit, offset, rows);
  }

  /**
   The whole operation: filters, order, window, lookups and fill.  Row i is
   the matching pulse with offset + i of them before it, its links rewritten.
   The rows are the single lookups exactly when no lookup disputes two
   neighbours; on well-linked pulses, when no linked pulse is hidden between
   two of them, and so always when no timestamp filter is given.
   */
  method GetPulses(db: Db, f: Filter, asc: bool, limit: nat, offset: nat)
    returns (page: seq<Row>, total: nat, ghost rows: seq<Row>)
    ensures Fetched(db, f, asc, limit, offset, rows) && Relinked(rows, page)
    ensures total == |Matching(db, f)| && InPosition(Matching(db, f), asc, offset, page)
    ensures |page| == if offset >= total then 0 else Smaller(limit, total - offset)
    ensures Page(db, Upward(rows, asc))
    ensures NonNegative(db) ==> (PageAgrees(db, page) <==> Undisputed(db, Upward(rows, asc)))
    ensures NonNegative(db) && WellLinked(db) ==> (PageAgrees(db, page) <==> !HidesLink(db, Upward(rows, asc)))
    ensures NonNegative(db) && WellLinked(db) && Untimed(f) ==> PageAgrees(db, page)
  {
    var window;
    window, total := Query(db, f, asc, limit, offset);
    page := FillPage(db, window, asc);
    rows := window;
    RelinkedPositions(Matching(db, f), asc, offset, rows, page);
    PageAgreement(db, f, asc, limit, offset, rows, page);
  }

  // ---------------------------------------------------------------------
  // Linked jet drops
  // ---------------------------------------------------------------------

  function Siblings(jet: string): seq<string> {
    [jet, jet + "0", jet + "1"] + if jet == "" then [] else [jet[..|jet| - 1]]
  }

  /** The next drops that reading a jet drop returns. */
  ghost function NextDrops(db: Db, k: DropKey): set<DropKey> {
    set d | d in db.drops && d.pulse == NextOf(db, k.pulse) != UNKNOWN && d.jet in Siblings(k.jet)
  }

  ghost function PrevDrops(db: Db, k: DropKey): set<DropKey>
    requires k.pulse in db.pulses
  {
    set d | d in db.drops && d.pulse == db.pulses[k.pulse].prev && d.jet in Siblings(k.jet)
  }

  lemma SiblingsSymmetric(a: string, b: string)
    requires JetTree.Binary(a) && JetTree.Binary(b)
    ensures b in Siblings(a) <==> a in Siblings(b)
  {
    SiblingsMeaning(a, b);
    SiblingsMeaning(b, a);
  }

  predicate ChildOf(c: string, p: string) {
    c != "" && c[..|c| - 1] == p
  }

  lemma SiblingsMeaning(a: string, b: string)
    requires JetTree.Binary(a) && JetTree.Binary(b)
    ensures b in Siblings(a) <==> a == b || ChildOf(b, a) || ChildOf(a, b)
  {
    if ChildOf(b, a) {
      assert b == a + [b[|b| - 1]];
    }
  }

  ghost predicate DropsSound(db: Db) {
    forall k :: k in db.drops ==> k.pulse in db.pulses && JetTree.Binary(k.jet)
  }

  lemma NextOfIsInverse(db: Db, m: int, n: int)
    requires OneSuccessor(db) && NonNegative(db) && n in db.pulses
    ensures n == NextOf(db, m) <==> db.pulses[n].prev == m
  {
    if db.pulses[n].prev == m {
      assert n in WithPrev(db, m);
    }
  }

  /** The two link directions are dual. */
  lemma LinksAreDual(db: Db, a: DropKey, b: DropKey)
    requires OneSuccessor(db) && NonNegative(db) && DropsSound(db) && a in db.drops && b in db.drops
    ensures b in NextDrops(db, a) <==> a in PrevDrops(db, b)
  {
    NextOfIsInverse(db, a.pulse, b.pulse);
    SiblingsSymmetric(a.jet, b.jet);
  }

  predicate Overlap(a: string, b: string) {
    a <= b || b <= a
  }

  lemma SiblingsOverlap(a: string, b: string)
    requires JetTree.Binary(a) && JetTree.Binary(b) && -1 <= |a| - |b| <= 1
    ensures b in Siblings(a) <==> Overlap(a, b)
  {
    SiblingsMeaning(a, b);
  }

  /** Overlapping jets of two pulses differ in depth by at most one. */
  ghost predicate GradualSplit(db: Db, m: int, n: int) {
    forall a, b :: a in StoredJets(db, m) && b in StoredJets(db, n) && Overlap(a, b) ==> -1 <= |a| - |b| <= 1
  }

  /** If jets split and merge one level at a time, links are exactly the overlaps. */
  lemma LinksAreOverlaps(db: Db, a: DropKey, b: DropKey)
    requires OneSuccessor(db) && NonNegative(db) && DropsSound(db) && a in db.drops && b in db.drops
    requires db.pulses[b.pulse].prev == a.pulse && GradualSplit(db, a.pulse, b.pulse)
    ensures b in NextDrops(db, a) <==> Overlap(a.jet, b.jet)
    ensures a in PrevDrops(db, b) <==> Overlap(a.jet, b.jet)
  {
    NextOfIsInverse(db, a.pulse, b.pulse);
    LinksAreDual(db, a, b);
    SiblingsMeaning(a.jet, b.jet);
    if Overlap(a.jet, b.jet) {
      assert a.jet in StoredJets(db, a.pulse) && b.jet in StoredJets(db, b.pulse);
      SiblingsOverlap(a.jet, b.jet);
    }
  }
}
