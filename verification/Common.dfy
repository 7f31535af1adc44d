/** Small notions shared by the other modules. */
module Common {
  datatype Option<T> = None | Some(value: T)

  function Pow2(n: nat): (p: nat)
    ensures p >= 1
  {
    if n == 0 then 1 else 2 * Pow2(n - 1)
  }

  predicate NoDuplicates<T(==)>(s: seq<T>) {
    forall i, j :: 0 <= i < j < |s| ==> s[i] != s[j]
  }

  /** `order` lists exactly the elements of `s`, each once. */
  ghost predicate IsOrderOf<T(!new)>(order: seq<T>, s: set<T>) {
    NoDuplicates(order) && forall o :: o in order <==> o in s
  }

  /** The order in which a hash map is iterated: any order of its keys. */
  method IterationOrder<T(!new)>(keys: set<T>) returns (order: seq<T>)
    ensures IsOrderOf(order, keys)
  {
    order := [];
    var todo := keys;
    while todo != {}
      invariant todo <= keys && NoDuplicates(order)
      invariant forall o :: o in order <==> o in keys && o !in todo
    {
      var o :| o in todo;
      order := order + [o];
      todo := todo - {o};
    }
  }

  /** Any element can come first. */
  lemma {:induction false} OrderFrom<T(!new)>(s: set<T>, first: T) returns (order: seq<T>)
    requires first in s
    ensures IsOrderOf(order, s) && order[0] == first
    decreases s
  {
    if x :| x in s && x != first {
      var tail := OrderFrom(s - {first}, x);
      order := [first] + tail;
    } else {
      order := [first];
    }
  }

  lemma SomeMember(s: set<int>)
    ensures s == {} || exists n :: n in s
  {
    if !exists n :: n in s {
      assert s == {};
    }
  }
}
