/**
 What sorting a jet drop's records guarantees, for every iteration order.
 */
module SortTheorems {
  import opened Common
  import opened Records
  import opened SortRecords

  // ---------------------------------------------------------------------
  // Specification, independent of maps and walks
  // ---------------------------------------------------------------------

  /** Each record's prev is the reference of the record before it. */
  ghost predicate Linked(c: seq<Record>) {
    forall i :: 0 < i < |c| ==> c[i].prev == c[i - 1].ref
  }

  ghost predicate DistinctPrevs(c: seq<Record>) {
    forall i, j :: 0 <= i < j < |c| ==> c[i].prev != c[j].prev
  }

  ghost predicate DistinctRefs(c: seq<Record>) {
    forall i, j :: 0 <= i < j < |c| ==> c[i].ref != c[j].ref
  }

  /** One linear chain of two or more records whose head continues none of them. */
  ghost predicate LinearChain(c: seq<Record>) {
    && |c| > 0 && Linked(c) && DistinctPrevs(c)
    && c[0].prev !in Refs(c)
    && exists r :: r in c && r.ref != c[0].ref
  }

  ghost predicate Permutation(a: seq<Record>, b: seq<Record>) {
    multiset(a) == multiset(b)
  }

  /** The state records of one object can be put in order of change. */
  ghost predicate Orderable(rs: seq<Record>) {
    |rs| == 1 || exists c :: Permutation(c, rs) && LinearChain(c)
  }

  ghost predicate Sortable(rs: seq<Record>) {
    forall o :: o in Objects(rs) ==> Orderable(StatesOf(rs, o))
  }

  /** Equal references identify equal state records of an object. */
  ghost predicate RefIdentity(rs: seq<Record>) {
    forall a, b :: (a in rs && b in rs && SameObject(a, b) && a.ref == b.ref) ==> a == b
  }

  predicate SameObject(a: Record, b: Record) {
    a.kind == STATE && b.kind == STATE && a.obj == b.obj
  }

  // ---------------------------------------------------------------------
  // The two indexes
  // ---------------------------------------------------------------------

  lemma {:induction false} RefIndex(rs: seq<Record>)
    ensures forall k :: k in ByRef(rs) <==> k in Refs(rs)
    ensures |ByRef(rs)| <= |rs|
  {
    if rs != [] {
      var n := |rs| - 1;
      RefIndex(rs[..n]);
      assert rs == rs[..n] + [rs[n]];
      assert ByRef(rs).Keys == ByRef(rs[..n]).Keys + {rs[n].ref};
    }
  }

  lemma {:induction false} PrevIndex(rs: seq<Record>)
    ensures forall k :: k in ByPrev(rs) <==> k in Prevs(rs)
    ensures forall k :: k in ByPrev(rs) ==> ByPrev(rs)[k] in rs && ByPrev(rs)[k].prev == k
    ensures |ByPrev(rs)| <= |rs|
  {
    if rs != [] {
      var n := |rs| - 1;
      PrevIndex(rs[..n]);
      assert rs == rs[..n] + [rs[n]];
      assert ByPrev(rs).Keys == ByPrev(rs[..n]).Keys + {rs[n].prev};
    }
  }

  lemma DistinctSnoc(rs: seq<Record>, r: Record)
    ensures DistinctPrevs(rs + [r]) <==> DistinctPrevs(rs) && r.prev !in Prevs(rs)
  {
    var all := rs + [r];
    if DistinctPrevs(all) {
      forall i, j | 0 <= i < j < |rs| ensures rs[i].prev != rs[j].prev {
        assert all[i] == rs[i] && all[j] == rs[j];
      }
      forall x | x in rs ensures x.prev != r.prev {
        var i :| 0 <= i < |rs| && rs[i] == x;
        assert all[i] == x && all[|rs|] == r;
      }
    }
    if DistinctPrevs(rs) && r.prev !in Prevs(rs) {
      forall i, j | 0 <= i < j < |all| ensures all[i].prev != all[j].prev {
        assert all[i] in rs;
      }
    }
  }

  lemma {:induction false} FullPrevIndex(rs: seq<Record>)
    ensures |ByPrev(rs)| == |rs| <==> DistinctPrevs(rs)
  {
    if rs != [] {
      var n := |rs| - 1;
      var m := ByPrev(rs[..n]);
      FullPrevIndex(rs[..n]);
      PrevIndex(rs[..n]);
      assert rs == rs[..n] + [rs[n]];
      DistinctSnoc(rs[..n], rs[n]);
      assert ByPrev(rs).Keys == m.Keys + {rs[n].prev};
      assert |ByPrev(rs).Keys| == if rs[n].prev in m then |m.Keys| else |m.Keys| + 1;
    }
  }

  lemma Lookup(rs: seq<Record>, r: Record)
    requires DistinctPrevs(rs) && r in rs
    ensures r.prev in ByPrev(rs) && ByPrev(rs)[r.prev] == r
  {
    PrevIndex(rs);
    assert r.prev in Prevs(rs);
  }

  lemma DistinctPrevsPermuted(a: seq<Record>, b: seq<Record>)
    requires Permutation(a, b) && DistinctPrevs(a)
    ensures DistinctPrevs(b)
  {
    SameLength(a, b);
    FullPrevIndex(b);
    if !DistinctPrevs(b) {
      var i, j :| 0 <= i < j < |b| && b[i].prev == b[j].prev;
      assert b[i] in multiset(b) && b[j] in multiset(b);
      assert b[i] in a && b[j] in a;
      assert b[i] == b[j];
      TwoOccurrences(b, i, j);
      OneOccurrence(a, b[i]);
    }
  }

  lemma SameLength<T>(a: seq<T>, b: seq<T>)
    requires multiset(a) == multiset(b)
    ensures |a| == |b| && forall x :: x in a <==> x in b
  {
    assert |multiset(a)| == |a| && |multiset(b)| == |b|;
    forall x ensures x in a <==> x in b {
      assert x in multiset(a) <==> x in multiset(b);
    }
  }

  lemma TwoOccurrences<T>(s: seq<T>, i: nat, j: nat)
    requires i < j < |s| && s[i] == s[j]
    ensures multiset(s)[s[i]] >= 2
  {
    assert s == s[..j] + s[j..];
    assert s[i] in s[..j] && s[i] in s[j..];
  }

  lemma {:induction false} OneOccurrence<T>(s: seq<T>, x: T)
    requires NoDuplicates(s)
    ensures multiset(s)[x] == if x in s then 1 else 0
  {
    if s != [] {
      var n := |s| - 1;
      assert s == s[..n] + [s[n]];
      OneOccurrence(s[..n], x);
    }
  }

  lemma {:induction false} SetOfDistinct<T>(s: seq<T>) returns (elements: set<T>)
    requires NoDuplicates(s)
    ensures |elements| == |s| && forall x :: x in elements <==> x in s
  {
    elements := {};
    for i := 0 to |s|
      invariant |elements| == i && forall x :: x in elements <==> x in s[..i]
    {
      elements := elements + {s[i]};
    }
  }

  lemma SubsetOfSameLength<T>(a: seq<T>, b: seq<T>)
    requires NoDuplicates(a) && NoDuplicates(b) && |a| == |b|
    requires forall x :: x in a ==> x in b
    ensures multiset(a) == multiset(b)
  {
    var sa := SetOfDistinct(a);
    var sb := SetOfDistinct(b);
    SubsetSameSize(sa, sb);
    forall x ensures multiset(a)[x] == multiset(b)[x] {
      OneOccurrence(a, x);
      OneOccurrence(b, x);
    }
  }

  lemma SubsetSameSize<T>(a: set<T>, b: set<T>)
    requires a <= b && |a| == |b|
    ensures a == b
  {
    assert b == a + (b - a);
  }

  // ---------------------------------------------------------------------
  // One object
  // ---------------------------------------------------------------------

  lemma {:induction false} WalkLinks(index: map<Id, Record>, key: Id, n: nat, obj: Id)
    requires Walk(index, key, n, obj).Ok?
    requires forall k :: k in index ==> index[k].prev == k
    ensures var out := Walk(index, key, n, obj).records;
      && |out| == n && Linked(out) && (n > 0 ==> out[0].prev == key)
      && forall r :: r in out ==> r in index.Values
    decreases n
  {
    if n > 0 {
      var next := index[key];
      WalkLinks(index, next.ref, n - 1, obj);
      var rest := Walk(index, next.ref, n - 1, obj).records;
      var out := [next] + rest;
      forall i | 0 < i < |out| ensures out[i].prev == out[i - 1].ref {
        assert out[i] == rest[i - 1];
        assert i > 1 ==> out[i - 1] == rest[i - 2];
      }
    }
  }

  /** Unless there is a single reference, the result is a walk from a head. */
  ghost predicate HeadWalk(rs: seq<Record>, out: seq<Record>) {
    && |out| == |ByPrev(rs)| && |out| > 0
    && Linked(out) && out[0].prev !in Refs(rs)
    && forall r :: r in out ==> r in rs
  }

  lemma ObjectWalk(rs: seq<Record>, o: Id, h: Record)
    requires ValidHead(rs, h) && |ByRef(rs)| != 1 && SortObject(rs, o, h).Ok?
    ensures HeadWalk(rs, SortObject(rs, o, h).records)
  {
    PrevIndex(rs);
    RefIndex(rs);
    WalkLinks(ByPrev(rs), h.ref, |ByPrev(rs)| - 1, o);
  }

  /** No object ever yields more records than it has. */
  lemma ObjectBound(rs: seq<Record>, o: Id, h: Record)
    requires rs != [] && ValidHead(rs, h) && SortObject(rs, o, h).Ok?
    ensures |SortObject(rs, o, h).records| <= |rs|
    ensures forall r :: r in SortObject(rs, o, h).records ==> r in rs
  {
    PrevIndex(rs);
    if |ByRef(rs)| != 1 {
      ObjectWalk(rs, o, h);
    }
  }

  lemma {:induction false} WalkNeverReturns(rs: seq<Record>, out: seq<Record>, i: nat, j: nat)
    requires HeadWalk(rs, out) && i < j < |out|
    requires forall a, b :: a in rs && b in rs && a.ref == b.ref ==> a == b
    ensures out[i] != out[j]
  {
    assert out[j].prev == out[j - 1].ref;
    assert out[j - 1] in out;
    if i == 0 {
      assert out[j].prev in Refs(rs);
    } else {
      assert out[i - 1] in out;
      WalkNeverReturns(rs, out, i - 1, j - 1);
    }
  }

  lemma ObjectPermutation(rs: seq<Record>, o: Id, h: Record)
    requires rs != [] && ValidHead(rs, h) && SortObject(rs, o, h).Ok?
    requires |SortObject(rs, o, h).records| == |rs|
    requires forall a, b :: a in rs && b in rs && a.ref == b.ref ==> a == b
    ensures Permutation(SortObject(rs, o, h).records, rs)
  {
    var out := SortObject(rs, o, h).records;
    if |ByRef(rs)| == 1 {
      assert out == [rs[0]] == rs;
    } else {
      ObjectWalk(rs, o, h);
      FullPrevIndex(rs);
      forall i, j | 0 <= i < j < |out| ensures out[i] != out[j] {
        WalkNeverReturns(rs, out, i, j);
      }
      SubsetOfSameLength(out, rs);
    }
  }

  lemma OneRef(rs: seq<Record>)
    requires rs != []
    ensures |ByRef(rs)| == 1 <==> forall r :: r in rs ==> r.ref == rs[0].ref
  {
    RefIndex(rs);
    var keys := ByRef(rs).Keys;
    assert rs[0].ref in keys;
    if forall r :: r in rs ==> r.ref == rs[0].ref {
      assert keys == {rs[0].ref};
    }
    if |keys| == 1 {
      forall r | r in rs ensures r.ref == rs[0].ref {
        assert r.ref in ByRef(rs);
        OneKey(ByRef(rs), r.ref, rs[0].ref);
      }
    }
  }

  lemma SortedIsChain(rs: seq<Record>, o: Id, h: Record)
    requires rs != [] && ValidHead(rs, h) && SortObject(rs, o, h).Ok?
    requires Permutation(SortObject(rs, o, h).records, rs)
    ensures |rs| == 1 || LinearChain(SortObject(rs, o, h).records)
    ensures Orderable(rs)
  {
    var out := SortObject(rs, o, h).records;
    SameLength(out, rs);
    if |rs| > 1 {
      ObjectWalk(rs, o, h);
      FullPrevIndex(rs);
      DistinctPrevsPermuted(rs, out);
      OneRef(rs);
      assert out[0].prev !in Refs(out);
      assert exists r :: r in out && r.ref != out[0].ref;
      assert LinearChain(out);
    }
  }

  lemma {:induction false} WalkFollowsChain(rs: seq<Record>, c: seq<Record>, k: nat, o: Id)
    requires DistinctPrevs(rs) && Linked(c) && 0 < k <= |c|
    requires forall r :: r in c ==> r in rs
    ensures Walk(ByPrev(rs), c[k - 1].ref, |c| - k, o) == Ok(c[k..])
    decreases |c| - k
  {
    if k < |c| {
      assert c[k] in c && c[k].prev == c[k - 1].ref;
      Lookup(rs, c[k]);
      WalkFollowsChain(rs, c, k + 1, o);
      assert c[k..] == [c[k]] + c[k + 1..];
    }
  }

  lemma OnlyHead(rs: seq<Record>, c: seq<Record>, h: Record)
    requires Permutation(c, rs) && LinearChain(c) && ValidHead(rs, h)
    ensures HasHead(rs) && h == c[0]
  {
    SameLength(c, rs);
    RefIndex(rs);
    DistinctPrevsPermuted(c, rs);
    Lookup(rs, c[0]);
    PrevIndex(rs);
    assert c[0] in ByPrev(rs).Values;
    assert IsHead(rs, c[0]);
    forall i | 0 < i < |c| ensures c[i].prev in Refs(rs) {
      assert c[i - 1] in rs;
    }
  }

  lemma SeveralRefs(rs: seq<Record>, c: seq<Record>)
    requires Permutation(c, rs) && LinearChain(c)
    ensures |ByRef(rs)| != 1
  {
    SameLength(c, rs);
    OneRef(rs);
    var r :| r in c && r.ref != c[0].ref;
    assert r in rs && c[0] in rs;
  }

  lemma ChainIndex(rs: seq<Record>, c: seq<Record>)
    requires Permutation(c, rs) && DistinctPrevs(c)
    ensures DistinctPrevs(rs) && |ByPrev(rs)| == |c| && forall r :: r in c ==> r in rs
  {
    DistinctPrevsPermuted(c, rs);
    FullPrevIndex(rs);
    SameLength(c, rs);
  }

  lemma ChainSorts(rs: seq<Record>, c: seq<Record>, o: Id, h: Record)
    requires ValidHead(rs, h) && Permutation(c, rs) && LinearChain(c)
    ensures SortObject(rs, o, h) == Ok(c)
  {
    SeveralRefs(rs, c);
    OnlyHead(rs, c, h);
    assert Walk(ByPrev(rs), c[0].ref, |ByPrev(rs)| - 1, o) == Ok(c[1..]) by {
      ChainIndex(rs, c);
      WalkFollowsChain(rs, c, 1, o);
    }
    assert c == [c[0]] + c[1..];
  }

  lemma OrderableSorts(rs: seq<Record>, o: Id, h: Record)
    requires ValidHead(rs, h) && Orderable(rs)
    ensures SortObject(rs, o, h).Ok? && Permutation(SortObject(rs, o, h).records, rs)
  {
    if |rs| == 1 {
      OneRef(rs);
      assert rs == [rs[0]];
    } else {
      var c :| Permutation(c, rs) && LinearChain(c);
      ChainSorts(rs, c, o, h);
    }
  }

  // ---------------------------------------------------------------------
  // The whole jet drop
  // ---------------------------------------------------------------------

  lemma CountSnoc(s: seq<Record>, x: Record, r: Record)
    ensures multiset(s + [x])[r] == multiset(s)[r] + if x == r then 1 else 0
  {
  }

  lemma {:induction false} FilterCount(rs: seq<Record>, o: Id, r: Record)
    ensures multiset(StatesOf(rs, o))[r] == if StateOf(r, o) then multiset(rs)[r] else 0
  {
    if rs != [] {
      var n := |rs| - 1;
      FilterCount(rs[..n], o, r);
      assert rs == rs[..n] + [rs[n]];
      StatesOfAppend(rs[..n], rs[n], o);
      CountSnoc(rs[..n], rs[n], r);
      CountSnoc(StatesOf(rs[..n], o), rs[n], r);
    }
  }

  lemma {:induction false} NonStateCount(rs: seq<Record>, r: Record)
    ensures multiset(NonStates(rs))[r] == if r.kind != STATE then multiset(rs)[r] else 0
  {
    if rs != [] {
      var n := |rs| - 1;
      NonStateCount(rs[..n], r);
      assert rs == rs[..n] + [rs[n]];
      StatesOfAppend(rs[..n], rs[n], r.obj);
      CountSnoc(rs[..n], rs[n], r);
      CountSnoc(NonStates(rs[..n]), rs[n], r);
    }
  }

  lemma StatesOfMember(rs: seq<Record>, o: Id, r: Record)
    ensures r in StatesOf(rs, o) <==> r in rs && StateOf(r, o)
  {
    FilterCount(rs, o, r);
    assert r in StatesOf(rs, o) <==> r in multiset(StatesOf(rs, o));
    assert r in rs <==> r in multiset(rs);
  }

  lemma StatesOfPermuted(a: seq<Record>, b: seq<Record>, o: Id)
    requires Permutation(a, b)
    ensures Permutation(StatesOf(a, o), StatesOf(b, o))
  {
    forall r ensures multiset(StatesOf(a, o))[r] == multiset(StatesOf(b, o))[r] {
      FilterCount(a, o, r);
      FilterCount(b, o, r);
    }
  }

  /** The state records of the objects of `order`, object by object. */
  ghost function Grouped(rs: seq<Record>, order: seq<Id>): seq<Record> {
    if order == [] then [] else
      Grouped(rs, order[..|order| - 1]) + StatesOf(rs, order[|order| - 1])
  }

  lemma {:induction false} GroupedCount(rs: seq<Record>, order: seq<Id>, r: Record)
    requires NoDuplicates(order)
    ensures multiset(Grouped(rs, order))[r] == if r.kind == STATE && r.obj in order then multiset(rs)[r] else 0
  {
    if order != [] {
      var n := |order| - 1;
      var before, last := Grouped(rs, order[..n]), StatesOf(rs, order[n]);
      GroupedCount(rs, order[..n], r);
      FilterCount(rs, order[n], r);
      assert multiset(before + last)[r] == multiset(before)[r] + multiset(last)[r];
      assert order == order[..n] + [order[n]];
      assert order[n] !in order[..n];
    }
  }

  lemma GroupedAll(rs: seq<Record>, order: seq<Id>)
    requires IsOrderOf(order, Objects(rs))
    ensures Permutation(NonStates(rs) + Grouped(rs, order), rs)
    ensures |NonStates(rs)| + |Grouped(rs, order)| == |rs|
  {
    forall r ensures multiset(NonStates(rs) + Grouped(rs, order))[r] == multiset(rs)[r] {
      NonStateCount(rs, r);
      GroupedCount(rs, order, r);
      assert r in multiset(rs) ==> r in rs;
    }
    SameLength(NonStates(rs) + Grouped(rs, order), rs);
  }

  ghost function Block(rs: seq<Record>, heads: map<Id, Record>, o: Id): Result
    requires o in heads
  {
    SortObject(StatesOf(rs, o), o, heads[o])
  }

  ghost predicate HeadsFor(rs: seq<Record>, order: seq<Id>, heads: map<Id, Record>) {
    forall o :: o in order ==> HeadChosen(rs, heads, o) && StatesOf(rs, o) != []
  }

  lemma ChoicesHeads(rs: seq<Record>, ch: Choices)
    requires ValidChoices(rs, ch)
    ensures HeadsFor(rs, ch.order, ch.heads)
  {
    forall o | o in ch.order ensures HeadChosen(rs, ch.heads, o) && StatesOf(rs, o) != [] {
      StatesOfNonEmpty(rs, o);
    }
  }

  lemma {:induction false} BlocksBound(rs: seq<Record>, order: seq<Id>, heads: map<Id, Record>)
    requires HeadsFor(rs, order, heads) && SortObjects(rs, order, heads).Ok?
    ensures |SortObjects(rs, order, heads).records| <= |Grouped(rs, order)|
    ensures |SortObjects(rs, order, heads).records| == |Grouped(rs, order)| ==>
      forall o :: o in order ==> Block(rs, heads, o).Ok? && |Block(rs, heads, o).records| == |StatesOf(rs, o)|
  {
    if order != [] {
      var n := |order| - 1;
      assert order == order[..n] + [order[n]];
      assert HeadChosen(rs, heads, order[n]);
      BlocksBound(rs, order[..n], heads);
      ObjectBound(StatesOf(rs, order[n]), order[n], heads[order[n]]);
    }
  }

  ghost predicate Exact(rs: seq<Record>, heads: map<Id, Record>, o: Id) {
    && o in heads && Block(rs, heads, o).Ok?
    && Permutation(Block(rs, heads, o).records, StatesOf(rs, o))
  }

  lemma {:induction false} ExactBlocks(rs: seq<Record>, order: seq<Id>, heads: map<Id, Record>)
    requires forall o :: o in order ==> Exact(rs, heads, o)
    ensures SortObjects(rs, order, heads).Ok?
    ensures Permutation(SortObjects(rs, order, heads).records, Grouped(rs, order))
  {
    if order != [] {
      var n := |order| - 1;
      assert order == order[..n] + [order[n]];
      assert Exact(rs, heads, order[n]);
      ExactBlocks(rs, order[..n], heads);
    }
  }

  /** Every object exact means the whole output is a permutation of the input. */
  lemma ExactSorts(rs: seq<Record>, ch: Choices)
    requires ValidChoices(rs, ch) && forall o :: o in ch.order ==> Exact(rs, ch.heads, o)
    ensures SortWith(rs, ch).Ok? && Permutation(SortWith(rs, ch).records, rs)
  {
    ExactBlocks(rs, ch.order, ch.heads);
    GroupedAll(rs, ch.order);
    var states := SortObjects(rs, ch.order, ch.heads).records;
    SameLength(states, Grouped(rs, ch.order));
  }

  lemma {:induction false} StatesOfConcat(a: seq<Record>, b: seq<Record>, o: Id)
    ensures StatesOf(a + b, o) == StatesOf(a, o) + StatesOf(b, o)
  {
    if b == [] {
      assert a + b == a;
    } else {
      var init, x := b[..|b| - 1], b[|b| - 1];
      assert b == init + [x];
      assert a + b == (a + init) + [x];
      StatesOfConcat(a, init, o);
      StatesOfAppend(a + init, x, o);
      StatesOfAppend(init, x, o);
    }
  }

  lemma {:induction false} StatesOfUniform(s: seq<Record>, o: Id, p: Id)
    requires forall r :: r in s ==> StateOf(r, o)
    ensures StatesOf(s, p) == if p == o then s else []
  {
    if s != [] {
      var n := |s| - 1;
      assert s == s[..n] + [s[n]];
      assert s[n] in s && StateOf(s[n], o);
      StatesOfUniform(s[..n], o, p);
      StatesOfAppend(s[..n], s[n], p);
    }
  }

  lemma {:induction false} StatesOfNone(s: seq<Record>, o: Id)
    requires forall r :: r in s ==> r.kind != STATE
    ensures StatesOf(s, o) == []
  {
    if s != [] {
      var n := |s| - 1;
      StatesOfNone(s[..n], o);
    }
  }

  /** One more object: its block follows, and holds only its own states. */
  lemma BlockAfter(rs: seq<Record>, heads: map<Id, Record>, p: Id, before: seq<Record>, block: seq<Record>, o: Id)
    requires HeadChosen(rs, heads, p) && Block(rs, heads, p) == Ok(block)
    ensures StatesOf(before + block, o) == StatesOf(before, o) + if o == p then block else []
  {
    StatesOfConcat(before, block, o);
    ObjectBound(StatesOf(rs, p), p, heads[p]);
    forall r | r in block ensures StateOf(r, p) {
      StatesOfMember(rs, p, r);
    }
    StatesOfUniform(block, p, o);
  }

  /** Filtering the output by object gives back that object's block. */
  lemma {:induction false} BlockOf(
    rs: seq<Record>, order: seq<Id>, heads: map<Id, Record>, o: Id, states: seq<Record>)
    requires NoDuplicates(order) && HeadsFor(rs, order, heads) && SortObjects(rs, order, heads) == Ok(states)
    ensures o in order ==> Block(rs, heads, o).Ok?
    ensures StatesOf(states, o) == if o in order then Block(rs, heads, o).records else []
  {
    if order != [] {
      var n := |order| - 1;
      var p := order[n];
      assert order == order[..n] + [p];
      assert HeadChosen(rs, heads, p);
      var before, block := SortObjects(rs, order[..n], heads).records, Block(rs, heads, p).records;
      BlockOf(rs, order[..n], heads, o, before);
      assert states == before + block;
      BlockAfter(rs, heads, p, before, block, o);
      assert p !in order[..n];
    }
  }

  /** The block of each object sits in the output, and is what the filter finds. */
  lemma OutputStates(rs: seq<Record>, ch: Choices, o: Id)
    requires ValidChoices(rs, ch) && SortWith(rs, ch).Ok? && o in ch.order
    ensures Block(rs, ch.heads, o).Ok?
    ensures StatesOf(SortWith(rs, ch).records, o) == Block(rs, ch.heads, o).records
  {
    ChoicesHeads(rs, ch);
    BlockOf(rs, ch.order, ch.heads, o, SortObjects(rs, ch.order, ch.heads).records);
    var states := SortObjects(rs, ch.order, ch.heads).records;
    forall r | r in NonStates(rs) ensures r.kind != STATE {
      NonStateCount(rs, r);
      assert r in multiset(NonStates(rs));
    }
    StatesOfNone(NonStates(rs), o);
    StatesOfConcat(NonStates(rs), states, o);
    assert [] + StatesOf(states, o) == StatesOf(states, o);
  }

  /**
   For every input and every iteration order: sorting succeeds with a
   permutation of the input exactly when each object's records form one chain.
   */
  lemma SortTheorem(rs: seq<Record>, ch: Choices)
    requires ValidChoices(rs, ch)
    ensures SortWith(rs, ch).Ok? && Permutation(SortWith(rs, ch).records, rs) <==> Sortable(rs)
  {
    ChoicesHeads(rs, ch);
    if SortWith(rs, ch).Ok? && Permutation(SortWith(rs, ch).records, rs) {
      forall o | o in Objects(rs) ensures Orderable(StatesOf(rs, o)) {
        assert o in ch.order && HeadChosen(rs, ch.heads, o);
        OutputStates(rs, ch, o);
        StatesOfPermuted(SortWith(rs, ch).records, rs, o);
        SortedIsChain(StatesOf(rs, o), o, ch.heads[o]);
      }
    }
    if Sortable(rs) {
      forall o | o in ch.order ensures Exact(rs, ch.heads, o) {
        assert o in Objects(rs) && HeadChosen(rs, ch.heads, o);
        OrderableSorts(StatesOf(rs, o), o, ch.heads[o]);
      }
      ExactSorts(rs, ch);
    }
  }

  lemma RefIdentityOf(rs: seq<Record>, o: Id)
    requires RefIdentity(rs)
    ensures forall a, b :: a in StatesOf(rs, o) && b in StatesOf(rs, o) && a.ref == b.ref ==> a == b
  {
    forall a, b | a in StatesOf(rs, o) && b in StatesOf(rs, o) && a.ref == b.ref ensures a == b {
      StatesOfMember(rs, o, a);
      StatesOfMember(rs, o, b);
    }
  }

  /** If equal references mean equal records, success alone implies conservation. */
  lemma SortConserves(rs: seq<Record>, ch: Choices)
    requires ValidChoices(rs, ch) && RefIdentity(rs) && SortWith(rs, ch).Ok?
    ensures Permutation(SortWith(rs, ch).records, rs) && Sortable(rs)
    ensures forall o :: o in ch.order ==> Exact(rs, ch.heads, o)
  {
    ChoicesHeads(rs, ch);
    GroupedAll(rs, ch.order);
    BlocksBound(rs, ch.order, ch.heads);
    forall o | o in ch.order ensures Exact(rs, ch.heads, o) {
      assert HeadChosen(rs, ch.heads, o);
      RefIdentityOf(rs, o);
      ObjectPermutation(StatesOf(rs, o), o, ch.heads[o]);
    }
    ExactSorts(rs, ch);
    SortTheorem(rs, ch);
  }

  /** With unique references, "orderable" is the plain notion of one linear chain. */
  ghost predicate PlainChain(c: seq<Record>) {
    DistinctRefs(c) && Linked(c) && (|c| > 1 ==> c[0].prev !in Refs(c))
  }

  lemma UniqueRefs(c: seq<Record>)
    requires DistinctPrevs(c)
    requires forall a, b :: a in c && b in c && a.ref == b.ref ==> a == b
    ensures DistinctRefs(c)
  {
    forall i, j | 0 <= i < j < |c| ensures c[i].ref != c[j].ref {
      assert c[i] in c && c[j] in c;
    }
  }

  lemma PlainIsLinear(c: seq<Record>)
    requires PlainChain(c) && |c| > 1
    ensures LinearChain(c)
  {
    forall i, j | 0 <= i < j < |c| ensures c[i].prev != c[j].prev {
      assert c[j].prev == c[j - 1].ref && c[j - 1] in c;
      if i > 0 {
        assert c[i].prev == c[i - 1].ref;
      }
    }
    assert c[1] in c;
  }

  lemma PlainOrderable(rs: seq<Record>)
    requires rs != [] && forall a, b :: a in rs && b in rs && a.ref == b.ref ==> a == b
    ensures Orderable(rs) <==> exists c :: Permutation(c, rs) && PlainChain(c)
  {
    if |rs| == 1 {
      assert Permutation(rs, rs) && PlainChain(rs);
    } else if Orderable(rs) {
      var c :| Permutation(c, rs) && LinearChain(c);
      SameLength(c, rs);
      UniqueRefs(c);
      assert PlainChain(c);
    } else if c :| Permutation(c, rs) && PlainChain(c) {
      SameLength(c, rs);
      PlainIsLinear(c);
    }
  }

  /** When references are unique: success exactly for one duplicate-free chain per object. */
  lemma SortSucceedsExactly(rs: seq<Record>, ch: Choices)
    requires ValidChoices(rs, ch) && RefIdentity(rs)
    ensures SortWith(rs, ch).Ok? <==>
      forall o :: o in Objects(rs) ==> exists c :: Permutation(c, StatesOf(rs, o)) && PlainChain(c)
  {
    SortTheorem(rs, ch);
    if SortWith(rs, ch).Ok? {
      SortConserves(rs, ch);
    }
    forall o | o in Objects(rs)
      ensures Orderable(StatesOf(rs, o)) <==> exists c :: Permutation(c, StatesOf(rs, o)) && PlainChain(c)
    {
      StatesOfNonEmpty(rs, o);
      RefIdentityOf(rs, o);
      PlainOrderable(StatesOf(rs, o));
    }
  }

  // ---------------------------------------------------------------------
  // Layout of the output
  // ---------------------------------------------------------------------

  lemma BlockChain(rs: seq<Record>, ch: Choices, o: Id)
    requires ValidChoices(rs, ch) && RefIdentity(rs) && SortWith(rs, ch).Ok? && o in ch.order
    ensures Exact(rs, ch.heads, o) && PlainChain(Block(rs, ch.heads, o).records)
  {
    SortConserves(rs, ch);
    ChoicesHeads(rs, ch);
    assert HeadChosen(rs, ch.heads, o) && Exact(rs, ch.heads, o);
    var states, block := StatesOf(rs, o), Block(rs, ch.heads, o).records;
    SortedIsChain(states, o, ch.heads[o]);
    SameLength(block, states);
    RefIdentityOf(rs, o);
    if |block| > 1 {
      UniqueRefs(block);
    }
  }

  ghost function Flatten(blocks: seq<seq<Record>>): seq<Record> {
    if blocks == [] then [] else Flatten(blocks[..|blocks| - 1]) + blocks[|blocks| - 1]
  }

  ghost predicate BlockIs(rs: seq<Record>, heads: map<Id, Record>, o: Id, block: seq<Record>) {
    o in heads && Block(rs, heads, o) == Ok(block)
  }

  ghost predicate BlocksAre(rs: seq<Record>, order: seq<Id>, heads: map<Id, Record>, blocks: seq<seq<Record>>) {
    |blocks| == |order| && forall i :: 0 <= i < |order| ==> BlockIs(rs, heads, order[i], blocks[i])
  }

  lemma SortObjectsSnoc(rs: seq<Record>, order: seq<Id>, heads: map<Id, Record>, states: seq<Record>)
    returns (before: seq<Record>, block: seq<Record>)
    requires order != [] && SortObjects(rs, order, heads) == Ok(states)
    ensures SortObjects(rs, order[..|order| - 1], heads) == Ok(before) && states == before + block
    ensures BlockIs(rs, heads, order[|order| - 1], block)
  {
    var n := |order| - 1;
    before, block := SortObjects(rs, order[..n], heads).records, Block(rs, heads, order[n]).records;
  }

  lemma {:induction false} BlocksFlatten(rs: seq<Record>, order: seq<Id>, heads: map<Id, Record>, states: seq<Record>)
    returns (blocks: seq<seq<Record>>)
    requires SortObjects(rs, order, heads) == Ok(states)
    ensures BlocksAre(rs, order, heads, blocks) && Flatten(blocks) == states
  {
    blocks := [];
    if order != [] {
      var n := |order| - 1;
      var before, block := SortObjectsSnoc(rs, order, heads, states);
      var rest := BlocksFlatten(rs, order[..n], heads, before);
      assert order == order[..n] + [order[n]];
      blocks := rest + [block];
    }
  }

  /**
   The sorted drop is the non-state records in input order, followed by one
   contiguous block per object: its records, each once, in order of change.
   */
  lemma SortArranges(rs: seq<Record>, ch: Choices) returns (blocks: seq<seq<Record>>)
    requires ValidChoices(rs, ch) && RefIdentity(rs) && SortWith(rs, ch).Ok?
    ensures |blocks| == |ch.order| && SortWith(rs, ch).records == NonStates(rs) + Flatten(blocks)
    ensures forall i :: 0 <= i < |blocks| ==>
      Permutation(blocks[i], StatesOf(rs, ch.order[i])) && PlainChain(blocks[i])
  {
    SortConserves(rs, ch);
    blocks := BlocksFlatten(rs, ch.order, ch.heads, SortObjects(rs, ch.order, ch.heads).records);
    forall i | 0 <= i < |blocks|
      ensures Permutation(blocks[i], StatesOf(rs, ch.order[i])) && PlainChain(blocks[i])
    {
      BlockChain(rs, ch, ch.order[i]);
      assert BlockIs(rs, ch.heads, ch.order[i], blocks[i]);
    }
  }

  /** Where the i-th record ends up when `s` is filtered by object. */
  lemma FilterPosition(s: seq<Record>, o: Id, i: nat)
    requires i < |s| && StateOf(s[i], o)
    ensures |StatesOf(s[..i], o)| < |StatesOf(s, o)|
    ensures StatesOf(s, o)[|StatesOf(s[..i], o)|] == s[i]
    ensures |StatesOf(s[..i + 1], o)| == |StatesOf(s[..i], o)| + 1
  {
    assert s[..i + 1] == s[..i] + [s[i]];
    StatesOfAppend(s[..i], s[i], o);
    assert s == s[..i + 1] + s[i + 1..];
    StatesOfConcat(s[..i + 1], s[i + 1..], o);
  }

  lemma FilterMonotone(s: seq<Record>, o: Id, i: nat, j: nat)
    requires i <= j <= |s|
    ensures |StatesOf(s[..i], o)| <= |StatesOf(s[..j], o)|
  {
    assert s[..j] == s[..i] + s[i..j];
    StatesOfConcat(s[..i], s[i..j], o);
  }

  lemma FilterOrder(s: seq<Record>, o: Id, i: nat, j: nat)
    requires i < |s| && j < |s| && i != j && StateOf(s[i], o) && StateOf(s[j], o)
    requires PlainChain(StatesOf(s, o)) && s[j].prev == s[i].ref
    ensures i < j
  {
    FilterPosition(s, o, i);
    FilterPosition(s, o, j);
    if i < j {
      FilterMonotone(s, o, i + 1, j);
    } else {
      FilterMonotone(s, o, j + 1, i);
      ChainPosition(StatesOf(s, o), |StatesOf(s[..i], o)|, |StatesOf(s[..j], o)|);
    }
  }

  /** In the sorted drop every state record comes after its predecessor. */
  lemma PredecessorFirst(rs: seq<Record>, ch: Choices, i: nat, j: nat)
    requires ValidChoices(rs, ch) && RefIdentity(rs) && SortWith(rs, ch).Ok?
    requires var out := SortWith(rs, ch).records;
      i < |out| && j < |out| && i != j && SameObject(out[i], out[j]) && out[j].prev == out[i].ref
    ensures i < j
  {
    var out := SortWith(rs, ch).records;
    var o := out[i].obj;
    assert o in ch.order by {
      SortConserves(rs, ch);
      SameLength(out, rs);
      assert out[i] in rs;
    }
    BlockChain(rs, ch, o);
    OutputStates(rs, ch, o);
    FilterOrder(out, o, i, j);
  }

  lemma ChainPosition(c: seq<Record>, a: nat, b: nat)
    requires PlainChain(c) && a < |c| && b < |c| && a != b && c[b].prev == c[a].ref
    ensures a < b
  {
    assert c[a] in c;
    if b > 0 {
      assert c[b].prev == c[b - 1].ref;
    }
  }

  // ---------------------------------------------------------------------
  // Without unique references
  // ---------------------------------------------------------------------

  /** Four records of one object, two of them under the same reference. */
  function Clash(): seq<Record> {
    var o, x := Id("o"), "";
    [Record(STATE, "a", Id("a"), o, Id("x"), x), Record(STATE, "b", Id("b"), o, Id("a"), x),
     Record(STATE, "a", Id("a"), o, Id("b"), x), Record(STATE, "d", Id("d"), o, Id("y"), x)]
  }

  lemma ClashIndexes()
    ensures var rs := Clash();
      && ByRef(rs) == map[Id("a") := rs[2], Id("b") := rs[1], Id("d") := rs[3]]
      && ByPrev(rs) == map[Id("x") := rs[0], Id("a") := rs[1], Id("b") := rs[2], Id("y") := rs[3]]
  {
    var rs := Clash();
    IndexAppend([], rs[0]);
    IndexAppend([rs[0]], rs[1]);
    IndexAppend([rs[0], rs[1]], rs[2]);
    IndexAppend([rs[0], rs[1], rs[2]], rs[3]);
    assert [] + [rs[0]] == [rs[0]] && [rs[0]] + [rs[1]] == [rs[0], rs[1]];
    assert [rs[0], rs[1]] + [rs[2]] == [rs[0], rs[1], rs[2]] && [rs[0], rs[1], rs[2]] + [rs[3]] == rs;
  }

  lemma ClashObject()
    ensures var rs := Clash();
      ValidHead(rs, rs[0]) && SortObject(rs, Id("o"), rs[0]) == Ok([rs[0], rs[1], rs[2], rs[1]])
  {
    var rs := Clash();
    var o, index := Id("o"), ByPrev(rs);
    ClashIndexes();
    assert index[Id("x")] == rs[0] && rs[0] in index.Values && IsHead(rs, rs[0]);
    assert |ByRef(rs).Keys| == |{Id("a"), Id("b"), Id("d")}| == 3;
    assert |index.Keys| == |{Id("x"), Id("a"), Id("b"), Id("y")}| == 4;
    assert Walk(index, Id("a"), 1, o) == Ok([rs[1]]);
    assert Walk(index, Id("b"), 2, o) == Ok([rs[2], rs[1]]);
    assert Walk(index, Id("a"), 3, o) == Ok([rs[1], rs[2], rs[1]]);
  }

  lemma {:induction false} NoNonStates(s: seq<Record>)
    requires forall r :: r in s ==> r.kind == STATE
    ensures NonStates(s) == []
  {
    if s != [] {
      var n := |s| - 1;
      assert s[n] in s;
      NoNonStates(s[..n]);
    }
  }

  lemma OneObjectChoices(rs: seq<Record>, o: Id, h: Record)
    requires rs != [] && ValidHead(rs, h) && forall r :: r in rs ==> StateOf(r, o)
    ensures ValidChoices(rs, Choices([o], map[o := h])) && StatesOf(rs, o) == rs
  {
    StatesOfUniform(rs, o, o);
    assert rs[0] in rs;
    assert Objects(rs) == {o};
    assert HeadChosen(rs, map[o := h], o);
  }

  lemma OneObject(rs: seq<Record>, o: Id, h: Record)
    requires NonStates(rs) == [] && StatesOf(rs, o) == rs
    requires SortObject(rs, o, h).Ok? && |SortObject(rs, o, h).records| == |rs|
    ensures SortWith(rs, Choices([o], map[o := h])) == SortObject(rs, o, h)
  {
    var heads, out := map[o := h], SortObject(rs, o, h).records;
    assert [o][..0] == [] && SortObjects(rs, [], heads) == Ok([]);
    assert [] + out == out;
    assert SortObjects(rs, [o], heads) == Ok(out);
  }

  /** Sorting them succeeds, loses the last record and repeats the second. */
  lemma ClashLosesARecord()
    ensures var rs := Clash();
      var ch := Choices([Id("o")], map[Id("o") := rs[0]]);
      ValidChoices(rs, ch) && SortWith(rs, ch) == Ok([rs[0], rs[1], rs[2], rs[1]])
  {
    ClashObject();
    NoNonStates(Clash());
    OneObjectChoices(Clash(), Id("o"), Clash()[0]);
    OneObject(Clash(), Id("o"), Clash()[0]);
  }
}
