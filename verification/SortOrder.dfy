/**
 When does hash map iteration show in the sorted drop?  Exactly if the records
 belong to two objects or more.
 */
module SortOrder {
  import opened Common
  import opened Records
  import opened SortRecords
  import opened SortTheorems

  ghost predicate SameForAllChoices(rs: seq<Record>) {
    forall a, b :: ValidChoices(rs, a) && ValidChoices(rs, b) ==> SortWith(rs, a) == SortWith(rs, b)
  }

  // ---------------------------------------------------------------------
  // One object: one result
  // ---------------------------------------------------------------------

  lemma SameRefs(c: seq<Record>, d: seq<Record>)
    requires Permutation(c, d)
    ensures |c| == |d| && Refs(c) == Refs(d) && forall r :: r in c <==> r in d
  {
    SameLength(c, d);
  }

  /** Only the first record of a chain continues none of it. */
  lemma Continues(c: seq<Record>, k: nat)
    requires PlainChain(c) && k < |c| && |c| > 1
    ensures c[k].prev in Refs(c) <==> k > 0
  {
    if k > 0 {
      assert c[k].prev == c[k - 1].ref && c[k - 1] in c;
    }
  }

  /** Records determine their chain. */
  lemma {:induction false} ChainUnique(c: seq<Record>, d: seq<Record>, i: nat)
    requires PlainChain(c) && PlainChain(d) && Permutation(c, d) && i < |c|
    ensures i < |d| && c[i] == d[i]
  {
    SameRefs(c, d);
    assert c[i] in d;
    var k :| 0 <= k < |d| && d[k] == c[i];
    if |c| > 1 {
      Continues(c, i);
      Continues(d, k);
    }
    if i > 0 {
      ChainUnique(c, d, i - 1);
      assert d[k - 1].ref == c[i - 1].ref == d[i - 1].ref;
    }
  }

  lemma ChainsEqual(c: seq<Record>, d: seq<Record>)
    requires PlainChain(c) && PlainChain(d) && Permutation(c, d)
    ensures c == d
  {
    SameRefs(c, d);
    forall i | 0 <= i < |c| ensures c[i] == d[i] {
      ChainUnique(c, d, i);
    }
  }

  lemma {:induction false} OrderLength(order: seq<Id>, s: set<Id>)
    requires IsOrderOf(order, s)
    ensures |order| == |s|
    decreases |order|
  {
    if order != [] {
      var n := |order| - 1;
      assert order == order[..n] + [order[n]];
      OrderLength(order[..n], s - {order[n]});
    } else {
      assert s == {};
    }
  }

  lemma OneObjectOneResult(rs: seq<Record>, a: Choices, b: Choices)
    requires RefIdentity(rs) && Sortable(rs) && |Objects(rs)| <= 1
    requires ValidChoices(rs, a) && ValidChoices(rs, b)
    ensures SortWith(rs, a) == SortWith(rs, b)
  {
    SortTheorem(rs, a);
    SortTheorem(rs, b);
    var xs := SortArranges(rs, a);
    var ys := SortArranges(rs, b);
    OrderLength(a.order, Objects(rs));
    OrderLength(b.order, Objects(rs));
    if xs != [] {
      assert a.order[0] in b.order;
      ChainsEqual(xs[0], ys[0]);
      assert xs == ys;
    }
  }

  // ---------------------------------------------------------------------
  // Two objects: two results
  // ---------------------------------------------------------------------

  lemma {:induction false} FlattenStarts(blocks: seq<seq<Record>>)
    requires blocks != []
    ensures blocks[0] <= Flatten(blocks)
  {
    var n := |blocks| - 1;
    if n > 0 {
      FlattenStarts(blocks[..n]);
    } else {
      assert blocks[..0] == [];
    }
  }

  /** Any object can come first among the state records. */
  lemma FirstObject(rs: seq<Record>, o: Id) returns (ch: Choices)
    requires RefIdentity(rs) && Sortable(rs) && o in Objects(rs)
    ensures ValidChoices(rs, ch) && SortWith(rs, ch).Ok?
    ensures var out, n := SortWith(rs, ch).records, |NonStates(rs)|; n < |out| && StateOf(out[n], o)
  {
    var order := OrderFrom(Objects(rs), o);
    ch := Choices(order, AnyHeads(rs, order));
    SortTheorem(rs, ch);
    var blocks := SortArranges(rs, ch);
    StatesOfNonEmpty(rs, o);
    SameRefs(blocks[0], StatesOf(rs, o));
    FlattenStarts(blocks);
    assert blocks[0][0] in blocks[0];
    StatesOfMember(rs, o, blocks[0][0]);
    assert SortWith(rs, ch).records[|NonStates(rs)|] == Flatten(blocks)[0] == blocks[0][0];
  }

  lemma TwoObjects(s: set<Id>) returns (o: Id, p: Id)
    requires |s| > 1
    ensures o in s && p in s && o != p
  {
    o :| o in s;
    assert |s - {o}| > 0;
    p :| p in s - {o};
  }

  /**
   For sortable records with identifying references: the sorted drop is the
   same for all iteration orders exactly if at most one object has states.
   */
  lemma OrderShows(rs: seq<Record>)
    requires RefIdentity(rs) && Sortable(rs)
    ensures SameForAllChoices(rs) <==> |Objects(rs)| <= 1
  {
    if |Objects(rs)| <= 1 {
      forall a, b | ValidChoices(rs, a) && ValidChoices(rs, b) ensures SortWith(rs, a) == SortWith(rs, b) {
        OneObjectOneResult(rs, a, b);
      }
    } else {
      var o, p := TwoObjects(Objects(rs));
      var a := FirstObject(rs, o);
      var b := FirstObject(rs, p);
      assert SortWith(rs, a) != SortWith(rs, b);
    }
  }
}
