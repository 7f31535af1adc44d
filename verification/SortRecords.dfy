/** The record as it leaves the transformer. */
module Records {
  /** A printed id: what restoreInsolarID makes of a reference. */
  datatype Id = Id(printed: string)

  datatype RecordType = STATE | REQUEST | RESULT

  /**
   `raw` is the reference as bytes and `ref` its printed form; `body` stands
   for the prototype, payload, hash, raw data, order and the other raw references.
   */
  datatype Record = Record(kind: RecordType, raw: string, ref: Id, obj: Id, prev: Id, body: string)
}

/**
 Sorting the state records of a jet drop along their prev-record links.

 The source indexes the records in two hash maps per object and walks from a
 head.  Hash map iteration decides the order of the objects and, if there are
 several, the head; `Choices` names these decisions, SortWith is the result
 for given decisions and SortRecords is the algorithm itself.
 */
module SortRecords {
  import opened Common
  import opened Records

  datatype SortError = NoHead(obj: Id) | NoSuccessor(key: Id, obj: Id) | CountChanged
  datatype Result = Ok(records: seq<Record>) | Err(error: SortError)

  // ---------------------------------------------------------------------
  // Partition of the input
  // ---------------------------------------------------------------------

  predicate StateOf(r: Record, o: Id) {
    r.kind == STATE && r.obj == o
  }

  function StatesOf(rs: seq<Record>, o: Id): seq<Record> {
    if rs == [] then [] else
      var last := rs[|rs| - 1];
      StatesOf(rs[..|rs| - 1], o) + (if StateOf(last, o) then [last] else [])
  }

  function NonStates(rs: seq<Record>): seq<Record> {
    if rs == [] then [] else
      var last := rs[|rs| - 1];
      NonStates(rs[..|rs| - 1]) + (if last.kind != STATE then [last] else [])
  }

  function Objects(rs: seq<Record>): set<Id> {
    set r | r in rs && r.kind == STATE :: r.obj
  }

  // ---------------------------------------------------------------------
  // The two indexes
  // ---------------------------------------------------------------------

  /** Later records overwrite earlier ones with the same reference. */
  function ByRef(rs: seq<Record>): map<Id, Record> {
    if rs == [] then map[] else
      var last := rs[|rs| - 1];
      ByRef(rs[..|rs| - 1])[last.ref := last]
  }

  function ByPrev(rs: seq<Record>): map<Id, Record> {
    if rs == [] then map[] else
      var last := rs[|rs| - 1];
      ByPrev(rs[..|rs| - 1])[last.prev := last]
  }

  function Refs(rs: seq<Record>): set<Id> {
    set r | r in rs :: r.ref
  }

  function Prevs(rs: seq<Record>): set<Id> {
    set r | r in rs :: r.prev
  }

  // ---------------------------------------------------------------------
  // The result for given iteration decisions
  // ---------------------------------------------------------------------

  datatype Choices = Choices(order: seq<Id>, heads: map<Id, Record>)

  predicate IsHead(rs: seq<Record>, h: Record) {
    h in ByPrev(rs).Values && h.prev !in ByRef(rs)
  }

  predicate HasHead(rs: seq<Record>) {
    exists h :: h in ByPrev(rs).Values && IsHead(rs, h)
  }

  ghost predicate ValidChoices(rs: seq<Record>, ch: Choices) {
    IsOrderOf(ch.order, Objects(rs)) && forall o :: o in ch.order ==> HeadChosen(rs, ch.heads, o)
  }

  ghost predicate HeadChosen(rs: seq<Record>, heads: map<Id, Record>, o: Id) {
    o in heads && ValidHead(StatesOf(rs, o), heads[o])
  }

  predicate ValidHead(rs: seq<Record>, h: Record) {
    HasHead(rs) ==> IsHead(rs, h)
  }

  /** `n` further records, each the one whose prev is the preceding `key`. */
  function Walk(index: map<Id, Record>, key: Id, n: nat, obj: Id): Result
    decreases n
  {
    if n == 0 then Ok([])
    else if key !in index then Err(NoSuccessor(key, obj))
    else
      match Walk(index, index[key].ref, n - 1, obj)
      case Ok(rest) => Ok([index[key]] + rest)
      case Err(e) => Err(e)
  }

  function SortObject(rs: seq<Record>, o: Id, h: Record): Result {
    if |ByRef(rs)| == 1 then Ok([ByRef(rs)[rs[|rs| - 1].ref]])
    else if !HasHead(rs) then Err(NoHead(o))
    else
      match Walk(ByPrev(rs), h.ref, |ByPrev(rs)| - 1, o)
      case Ok(rest) => Ok([h] + rest)
      case Err(e) => Err(e)
  }

  lemma {:induction false} StatesOfNonEmpty(rs: seq<Record>, o: Id)
    ensures o in Objects(rs) <==> StatesOf(rs, o) != []
  {
    if rs != [] {
      var n := |rs| - 1;
      StatesOfNonEmpty(rs[..n], o);
      assert rs == rs[..n] + [rs[n]];
      assert Objects(rs) == Objects(rs[..n]) + Objects([rs[n]]);
    }
  }

  /** The objects of `order` in turn; the first error ends the loop. */
  function SortObjects(rs: seq<Record>, order: seq<Id>, heads: map<Id, Record>): Result {
    if order == [] then Ok([]) else
      var o := order[|order| - 1];
      match SortObjects(rs, order[..|order| - 1], heads)
      case Err(e) => Err(e)
      case Ok(before) =>
        if o !in heads then Err(NoHead(o)) else
          match SortObject(StatesOf(rs, o), o, heads[o])
          case Err(e) => Err(e)
          case Ok(block) => Ok(before + block)
  }

  function SortWith(rs: seq<Record>, ch: Choices): Result {
    match SortObjects(rs, ch.order, ch.heads)
    case Err(e) => Err(e)
    case Ok(states) => Counted(|rs|, NonStates(rs) + states)
  }

  /** What sorting may yield, depending on hash map iteration. */
  ghost predicate SortedTo(rs: seq<Record>, sorted: seq<Record>) {
    exists ch :: ValidChoices(rs, ch) && SortWith(rs, ch) == Ok(sorted)
  }

  function Counted(n: nat, sorted: seq<Record>): Result {
    if |sorted| == n then Ok(sorted) else Err(CountChanged)
  }

  // ---------------------------------------------------------------------
  // The algorithm
  // ---------------------------------------------------------------------

  type Index = map<Id, map<Id, Record>>

  ghost predicate Indexed(rs: seq<Record>, byPrevRef: Index, byRef: Index, notState: seq<Record>) {
    notState == NonStates(rs) && forall o :: IndexedAt(rs, byPrevRef, byRef, o)
  }

  ghost predicate IndexedAt(rs: seq<Record>, byPrevRef: Index, byRef: Index, o: Id) {
    IndexedFor(StatesOf(rs, o), byPrevRef, byRef, o)
  }

  /** Both indexes hold the state records `states` of object `o`. */
  ghost predicate IndexedFor(states: seq<Record>, byPrevRef: Index, byRef: Index, o: Id) {
    if states == [] then
      o !in byRef && o !in byPrevRef
    else
      && o in byRef && byRef[o] == ByRef(states)
      && o in byPrevRef && byPrevRef[o] == ByPrev(states)
  }

  lemma StatesOfAppend(rs: seq<Record>, r: Record, o: Id)
    ensures StatesOf(rs + [r], o) == if StateOf(r, o) then StatesOf(rs, o) + [r] else StatesOf(rs, o)
    ensures NonStates(rs + [r]) == if r.kind != STATE then NonStates(rs) + [r] else NonStates(rs)
  {
    assert (rs + [r])[..|rs|] == rs;
  }

  lemma IndexAppend(s: seq<Record>, r: Record)
    ensures ByRef(s + [r]) == ByRef(s)[r.ref := r]
    ensures ByPrev(s + [r]) == ByPrev(s)[r.prev := r]
  {
    assert (s + [r])[..|s|] == s;
  }

  lemma IndexOther(rs: seq<Record>, r: Record, byPrevRef: Index, byRef: Index, notState: seq<Record>)
    requires Indexed(rs, byPrevRef, byRef, notState) && r.kind != STATE
    ensures Indexed(rs + [r], byPrevRef, byRef, notState + [r])
  {
    forall o ensures IndexedAt(rs + [r], byPrevRef, byRef, o) {
      StatesOfAppend(rs, r, o);
      assert IndexedAt(rs, byPrevRef, byRef, o);
    }
    StatesOfAppend(rs, r, r.obj);
  }

  function IndexPut(index: Index, o: Id, key: Id, r: Record): Index {
    index[o := (if o in index then index[o] else map[])[key := r]]
  }

  lemma IndexStateAt(states: seq<Record>, r: Record, byPrevRef: Index, byRef: Index)
    requires IndexedFor(states, byPrevRef, byRef, r.obj)
    ensures IndexedFor(states + [r], IndexPut(byPrevRef, r.obj, r.prev, r), IndexPut(byRef, r.obj, r.ref, r), r.obj)
  {
    IndexAppend(states, r);
  }

  lemma IndexState(rs: seq<Record>, r: Record, byPrevRef: Index, byRef: Index, notState: seq<Record>)
    requires Indexed(rs, byPrevRef, byRef, notState) && r.kind == STATE
    ensures r.obj in byRef <==> r.obj in byPrevRef
    ensures Indexed(rs + [r], IndexPut(byPrevRef, r.obj, r.prev, r), IndexPut(byRef, r.obj, r.ref, r), notState)
  {
    var byPrevRef', byRef' := IndexPut(byPrevRef, r.obj, r.prev, r), IndexPut(byRef, r.obj, r.ref, r);
    forall o ensures IndexedAt(rs + [r], byPrevRef', byRef', o) {
      assert IndexedAt(rs, byPrevRef, byRef, o);
      StatesOfAppend(rs, r, o);
      if o == r.obj {
        IndexStateAt(StatesOf(rs, o), r, byPrevRef, byRef);
      }
    }
    StatesOfAppend(rs, r, r.obj);
    assert IndexedAt(rs, byPrevRef, byRef, r.obj);
  }

  method InitRecordsMapsByObj(rs: seq<Record>)
    returns (byPrevRef: Index, byRef: Index, notState: seq<Record>)
    ensures Indexed(rs, byPrevRef, byRef, notState)
  {
    byPrevRef, byRef, notState := map[], map[], [];
    for i := 0 to |rs|
      invariant Indexed(rs[..i], byPrevRef, byRef, notState)
    {
      var r := rs[i];
      assert rs[..i + 1] == rs[..i] + [r];
      if r.kind != STATE {
        IndexOther(rs[..i], r, byPrevRef, byRef, notState);
        notState := notState + [r];
      } else {
        IndexState(rs[..i], r, byPrevRef, byRef, notState);
        ghost var oldRef, oldPrev := byRef, byPrevRef;
        var o := r.obj;
        if o !in byRef {
          byRef, byPrevRef := byRef[o := map[]], byPrevRef[o := map[]];
        }
        byRef := byRef[o := byRef[o][r.ref := r]];
        byPrevRef := byPrevRef[o := byPrevRef[o][r.prev := r]];
        assert byRef == oldRef[o := byRef[o]] && byPrevRef == oldPrev[o := byPrevRef[o]];
      }
    }
    assert rs[..|rs|] == rs;
  }

  /** Search of a record that refers to no other record of its object. */
  method FindHead(ghost rs: seq<Record>, byPrev: map<Id, Record>, byRef: map<Id, Record>)
    returns (h: Option<Record>)
    requires byPrev == ByPrev(rs) && byRef == ByRef(rs)
    ensures h.Some? <==> HasHead(rs)
    ensures h.Some? ==> IsHead(rs, h.value)
  {
    var todo := byPrev.Keys;
    while todo != {}
      invariant todo <= byPrev.Keys
      invariant forall k :: k in byPrev && k !in todo ==> byPrev[k].prev in byRef
    {
      var k :| k in todo;
      if byPrev[k].prev !in byRef {
        assert byPrev[k] in byPrev.Values;
        return Some(byPrev[k]);
      }
      todo := todo - {k};
    }
    return None;
  }

  /** The loop that follows the links, `i` counting the records appended. */
  method FollowLinks(index: map<Id, Record>, first: Id, n: nat, obj: Id) returns (r: Result)
    ensures r == Walk(index, first, n, obj)
  {
    var key, out := first, [];
    var i := 0;
    while i != n
      invariant 0 <= i <= n
      invariant Walk(index, first, n, obj) ==
        match Walk(index, key, n - i, obj)
        case Ok(rest) => Ok(out + rest)
        case Err(e) => Err(e)
    {
      if key !in index {
        return Err(NoSuccessor(key, obj));
      }
      assert forall rest :: out + ([index[key]] + rest) == (out + [index[key]]) + rest;
      out := out + [index[key]];
      key := index[key].ref;
      i := i + 1;
    }
    assert out + [] == out;
    return Ok(out);
  }

  ghost function AnyHead(rs: seq<Record>): (h: Record)
    requires rs != []
    ensures ValidHead(rs, h)
  {
    if HasHead(rs) then var h :| h in ByPrev(rs).Values && IsHead(rs, h); h else rs[0]
  }

  /** The body of the loop over the objects. */
  method SortOne(ghost rs: seq<Record>, o: Id, byPrev: map<Id, Record>, byRef: map<Id, Record>)
    returns (r: Result, ghost h: Record)
    requires rs != [] && byPrev == ByPrev(rs) && byRef == ByRef(rs)
    ensures ValidHead(rs, h) && r == SortObject(rs, o, h)
  {
    h := AnyHead(rs);
    if |byRef| == 1 {
      var k :| k in byRef;
      OneKey(byRef, k, rs[|rs| - 1].ref);
      return Ok([byRef[k]]), h;
    }
    var head := FindHead(rs, byPrev, byRef);
    if head.None? {
      return Err(NoHead(o)), h;
    }
    h := head.value;
    r := FollowLinks(byPrev, head.value.ref, |byPrev| - 1, o);
    if r.Ok? {
      r := Ok([head.value] + r.records);
    }
  }

  lemma OneKey<K, V>(m: map<K, V>, a: K, b: K)
    requires |m| == 1 && a in m && b in m
    ensures a == b
  {
    assert |m.Keys - {a}| == 0;
  }

  lemma {:induction false} SameHeads(rs: seq<Record>, order: seq<Id>, a: map<Id, Record>, b: map<Id, Record>)
    requires forall o :: o in order ==> o in a && o in b && a[o] == b[o]
    ensures SortObjects(rs, order, a) == SortObjects(rs, order, b)
  {
    if order != [] {
      SameHeads(rs, order[..|order| - 1], a, b);
    }
  }

  lemma {:induction false} ErrorStays(rs: seq<Record>, order: seq<Id>, n: nat, heads: map<Id, Record>)
    requires n <= |order|
    requires SortObjects(rs, order[..n], heads).Err?
    ensures SortObjects(rs, order, heads) == SortObjects(rs, order[..n], heads)
  {
    if n < |order| {
      var m := |order| - 1;
      assert order[..m][..n] == order[..n];
      ErrorStays(rs, order[..m], n, heads);
    } else {
      assert order[..n] == order;
    }
  }

  /** A step of the main loop: the head found at position `i` becomes the decision there. */
  lemma SortStep(rs: seq<Record>, ch: Choices, i: nat, head: Record)
    returns (next: Choices)
    requires ValidChoices(rs, ch) && i < |ch.order|
    requires ValidHead(StatesOf(rs, ch.order[i]), head)
    requires SortObjects(rs, ch.order[..i], ch.heads).Ok?
    ensures ValidChoices(rs, next) && next.order == ch.order && StatesOf(rs, ch.order[i]) != []
    ensures match SortObject(StatesOf(rs, ch.order[i]), ch.order[i], head)
      case Ok(block) =>
        SortObjects(rs, ch.order[..i + 1], next.heads) ==
          Ok(SortObjects(rs, ch.order[..i], ch.heads).records + block)
      case Err(e) => SortWith(rs, next) == Err(e)
  {
    var o := ch.order[i];
    next := ch.(heads := ch.heads[o := head]);
    forall p | p in next.order ensures HeadChosen(rs, next.heads, p) {
      assert HeadChosen(rs, ch.heads, p);
    }
    forall p | p in ch.order[..i] ensures p in ch.heads && p != o {
      assert p in ch.order && HeadChosen(rs, ch.heads, p);
    }
    SameHeads(rs, ch.order[..i], ch.heads, next.heads);
    assert ch.order[..i + 1][..i] == ch.order[..i];
    StatesOfNonEmpty(rs, o);
    assert ch.order[..i + 1][i] == o;
    if SortObject(StatesOf(rs, o), o, head).Err? {
      assert SortObjects(rs, ch.order[..i + 1], next.heads).Err?;
      ErrorStays(rs, ch.order, i + 1, next.heads);
    }
  }

  ghost function AnyHeads(rs: seq<Record>, order: seq<Id>): (heads: map<Id, Record>)
    requires forall o :: o in order ==> o in Objects(rs)
    ensures forall o :: o in order ==> HeadChosen(rs, heads, o)
  {
    map o | o in order :: (StatesOfNonEmpty(rs, o); AnyHead(StatesOf(rs, o)))
  }

  lemma IndexKeys(rs: seq<Record>, byPrevRef: Index, byRef: Index, notState: seq<Record>)
    requires Indexed(rs, byPrevRef, byRef, notState)
    ensures byRef.Keys == Objects(rs)
  {
    forall o ensures o in Objects(rs) <==> o in byRef.Keys {
      StatesOfNonEmpty(rs, o);
      assert IndexedAt(rs, byPrevRef, byRef, o);
    }
  }

  lemma IndexLookup(rs: seq<Record>, byPrevRef: Index, byRef: Index, notState: seq<Record>, o: Id)
    requires Indexed(rs, byPrevRef, byRef, notState) && o in byRef
    ensures o in byPrevRef && StatesOf(rs, o) != []
    ensures byRef[o] == ByRef(StatesOf(rs, o)) && byPrevRef[o] == ByPrev(StatesOf(rs, o))
  {
    assert IndexedAt(rs, byPrevRef, byRef, o);
  }

  /** One iteration of the main loop. */
  method SortAt(
    ghost rs: seq<Record>, ghost ch: Choices, i: nat, o: Id,
    byPrevRef: Index, byRef: Index, ghost notState: seq<Record>)
    returns (r: Result, ghost next: Choices)
    requires Indexed(rs, byPrevRef, byRef, notState)
    requires ValidChoices(rs, ch) && i < |ch.order| && o == ch.order[i]
    requires SortObjects(rs, ch.order[..i], ch.heads).Ok?
    ensures ValidChoices(rs, next) && next.order == ch.order
    ensures match r
      case Ok(block) =>
        SortObjects(rs, ch.order[..i + 1], next.heads) ==
          Ok(SortObjects(rs, ch.order[..i], ch.heads).records + block)
      case Err(_) => r == SortWith(rs, next)
  {
    IndexKeys(rs, byPrevRef, byRef, notState);
    IndexLookup(rs, byPrevRef, byRef, notState, o);
    ghost var head;
    r, head := SortOne(StatesOf(rs, o), o, byPrevRef[o], byRef[o]);
    next := SortStep(rs, ch, i, head);
  }

  method SortAll(
    ghost rs: seq<Record>, order: seq<Id>, ghost heads: map<Id, Record>,
    byPrevRef: Index, byRef: Index, notState: seq<Record>)
    returns (r: Result, ghost ch: Choices)
    requires Indexed(rs, byPrevRef, byRef, notState) && ValidChoices(rs, Choices(order, heads))
    ensures ValidChoices(rs, ch)
    ensures match r
      case Ok(sorted) => SortWith(rs, ch) == Counted(|rs|, sorted)
      case Err(_) => r == SortWith(rs, ch)
  {
    ch := Choices(order, heads);
    ghost var states: seq<Record> := [];
    var sorted := notState;
    for i := 0 to |order|
      invariant ValidChoices(rs, ch) && ch.order == order
      invariant SortObjects(rs, order[..i], ch.heads) == Ok(states)
      invariant sorted == notState + states
    {
      r, ch := SortAt(rs, ch, i, order[i], byPrevRef, byRef, notState);
      if r.Err? {
        return;
      }
      states := states + r.records;
      sorted := sorted + r.records;
    }
    assert order[..|order|] == order;
    r := Ok(sorted);
  }

  /** A result that some iteration order produces. */
  ghost predicate Possible(rs: seq<Record>, r: Result) {
    exists ch :: ValidChoices(rs, ch) && r == SortWith(rs, ch)
  }

  method SortRecords(rs: seq<Record>) returns (r: Result)
    ensures Possible(rs, r)
  {
    var byPrevRef, byRef, notState := InitRecordsMapsByObj(rs);
    IndexKeys(rs, byPrevRef, byRef, notState);
    var order := IterationOrder(byRef.Keys);
    ghost var ch;
    r, ch := SortAll(rs, order, AnyHeads(rs, order), byPrevRef, byRef, notState);
    if r.Ok? {
      r := Counted(|rs|, r.records);
    }
  }
}
