/**
 Completeness of a pulse: does a set of jet ids tile the whole jet tree?

 A jet id is the path from the root of a binary tree, written with '0' and '1'.
 PulseIsComplete follows the source's nested loops, its memo of checked
 siblings and its unordered iteration over a hash map.  Everything after it
 relates the answer to four independent notions: coverage of all long paths,
 leaf sets of full binary trees, prefix codes and the Kraft sum.
 */
module JetTree {
  import opened Common

  // ---------------------------------------------------------------------
  // The operation
  // ---------------------------------------------------------------------

  /** `Panics` is the out-of-range slice taken of an empty jet id. */
  datatype Verdict = Complete | Incomplete | Panics

  function InvertLast(s: string): (r: string)
    requires s != ""
    ensures |r| == |s| && r[..|s| - 1] == s[..|s| - 1] && r[|s| - 1] != s[|s| - 1]
    ensures r[|s| - 1] == '0' || r[|s| - 1] == '1'
  {
    s[..|s| - 1] + (if s[|s| - 1] == '1' then "0" else "1")
  }

  /** Some jet of `d` lies at node `p` or below it. */
  predicate HasUnder(d: set<string>, p: string) {
    exists j :: j in d && p <= j
  }

  /** The sibling of every node on the way to a jet of `d` is inhabited. */
  predicate SiblingsInhabited(d: set<string>) {
    forall j :: j in d ==> JetInhabited(d, j)
  }

  predicate JetInhabited(d: set<string>, j: string) {
    forall i :: 1 <= i <= |j| ==> HasUnder(d, InvertLast(j[..i]))
  }

  predicate Tiles(d: set<string>) {
    d == {""} || (d != {} && "" !in d && SiblingsInhabited(d))
  }

  /** The same, for the ancestors of one jet from depth `from` on. */
  predicate ParentsInhabited(d: set<string>, j: string, from: nat)
    requires from >= 1
  {
    forall i :: from <= i < |j| ==> HasUnder(d, InvertLast(j[..i]))
  }

  /** The inner search loop: `strings.Index(jetID2, p) == 0` for some jet. */
  method FindUnder(d: set<string>, p: string) returns (found: bool)
    ensures found == HasUnder(d, p)
  {
    var todo := d;
    while todo != {}
      invariant todo <= d
      invariant forall j :: j in d && p <= j ==> j in todo
    {
      var j :| j in todo;
      if p <= j {
        return true;
      }
      todo := todo - {j};
    }
    return false;
  }

  /** The answer of the first loop when the jets are visited in the given order. */
  function FirstLoop(d: set<string>, order: seq<string>): Verdict {
    if order == [] then Complete
    else if order[0] == "" then Panics
    else if !HasUnder(d, InvertLast(order[0])) then Incomplete
    else FirstLoop(d, order[1..])
  }

  /** The whole answer; the order matters only in the first loop. */
  function VerdictFor(d: set<string>, order: seq<string>): Verdict {
    if d == {} then Incomplete
    else if d == {""} then Complete
    else if FirstLoop(d, order) != Complete then FirstLoop(d, order)
    else if forall j :: j in d ==> ParentsInhabited(d, j, 1) then Complete
    else Incomplete
  }

  /** First loop: every jet needs its opposite, or something below it. */
  method CheckJets(d: set<string>, order: seq<string>) returns (v: Verdict)
    ensures v == FirstLoop(d, order)
  {
    for i := 0 to |order|
      invariant FirstLoop(d, order) == FirstLoop(d, order[i..])
    {
      assert order[i..][0] == order[i] && order[i..][1..] == order[i + 1..];
      var jetID := order[i];
      if jetID == "" {
        return Panics;
      }
      var inverted := InvertLast(jetID);
      if inverted !in d {
        var found := FindUnder(d, inverted);
        if !found {
          return Incomplete;
        }
      } else {
        assert inverted <= inverted;
      }
    }
    return Complete;
  }

  /** Second loop: the same for all ancestors, remembering what was found. */
  method CheckParents(d: set<string>) returns (ok: bool)
    ensures ok <==> forall j :: j in d ==> ParentsInhabited(d, j, 1)
  {
    var checked: set<string> := {};
    var todo := d;
    while todo != {}
      invariant todo <= d
      invariant forall p :: p in checked ==> HasUnder(d, p)
      invariant forall j :: j in d && j !in todo ==> ParentsInhabited(d, j, 1)
    {
      var jetID :| jetID in todo;
      var i := |jetID| - 1;
      while i >= 1
        invariant -1 <= i < |jetID|
        invariant i < 1 ==> ParentsInhabited(d, jetID, 1)
        invariant i >= 0 ==> ParentsInhabited(d, jetID, i + 1)
        invariant forall p :: p in checked ==> HasUnder(d, p)
      {
        var inverted := InvertLast(jetID[..i]);
        if inverted !in checked {
          var found := FindUnder(d, inverted);
          if !found {
            assert !ParentsInhabited(d, jetID, 1);
            return false;
          }
          checked := checked + {inverted};
        }
        i := i - 1;
      }
      todo := todo - {jetID};
    }
    return true;
  }

  /** An answer that some iteration order of the jets gives. */
  ghost predicate PossibleVerdict(d: set<string>, v: Verdict) {
    exists order :: IsOrderOf(order, d) && v == VerdictFor(d, order)
  }

  method PulseIsComplete(d: set<string>) returns (v: Verdict)
    ensures PossibleVerdict(d, v)
    ensures v == Complete <==> Tiles(d)
    ensures v == Panics ==> "" in d && |d| > 1
  {
    var order := IterationOrder(d);
    ghost var expected := VerdictFor(d, order);
    assert PossibleVerdict(d, expected);
    VerdictMeaning(d, order);
    if |d| == 0 {
      return Incomplete;
    }
    if |d| == 1 && "" in d {
      OnlyElement(d, "");
      return Complete;
    }
    v := CheckJets(d, order);
    if v != Complete {
      return;
    }
    var ok := CheckParents(d);
    v := if ok then Complete else Incomplete;
  }

  lemma {:induction false} FirstLoopMeaning(d: set<string>, order: seq<string>)
    ensures FirstLoop(d, order) == Complete <==>
      forall j :: j in order ==> j != "" && HasUnder(d, InvertLast(j))
    ensures FirstLoop(d, order) == Panics ==> "" in order
    ensures FirstLoop(d, order) == Incomplete ==>
      exists j :: j in order && j != "" && !HasUnder(d, InvertLast(j))
  {
    if order != [] {
      FirstLoopMeaning(d, order[1..]);
      assert order == [order[0]] + order[1..];
      assert forall j :: j in order <==> j == order[0] || j in order[1..];
    }
  }

  /** "Complete" in one order is "complete" in all, and means a tiling. */
  lemma VerdictMeaning(d: set<string>, order: seq<string>)
    requires IsOrderOf(order, d)
    ensures VerdictFor(d, order) == Complete <==> Tiles(d)
    ensures VerdictFor(d, order) == Panics ==> "" in d && |d| > 1
  {
    FirstLoopMeaning(d, order);
    if "" !in d {
      SiblingsOfAll(d);
    } else if d != {""} {
      RootBeside(d);
    }
  }

  // ---------------------------------------------------------------------
  // The slice of an empty string
  // ---------------------------------------------------------------------

  /** Every jet but the root has an inhabited opposite. */
  predicate OthersInhabited(d: set<string>) {
    forall j :: j in d && j != "" ==> HasUnder(d, InvertLast(j))
  }

  lemma RootBeside(d: set<string>)
    ensures "" in d && |d| > 1 <==> "" in d && d != {""}
  {
    if "" in d && d != {""} {
      var j :| j in d && j != "";
      assert {"", j} <= d;
      assert |d| == |d - {"", j}| + |{"", j}|;
    }
  }

  /** Some iteration order panics exactly when the root's id stands beside other jets. */
  lemma SomeOrderPanics(d: set<string>)
    ensures PossibleVerdict(d, Panics) <==> "" in d && |d| > 1
  {
    RootBeside(d);
    if "" in d && |d| > 1 {
      var order := OrderFrom(d, "");
      assert FirstLoop(d, order) == Panics;
      assert VerdictFor(d, order) == Panics;
    }
    if order :| IsOrderOf(order, d) && Panics == VerdictFor(d, order) {
      VerdictMeaning(d, order);
    }
  }

  /** Every order panics exactly when moreover nothing else can stop the first loop. */
  lemma EveryOrderPanics(d: set<string>)
    ensures (forall order :: IsOrderOf(order, d) ==> VerdictFor(d, order) == Panics) <==>
      "" in d && |d| > 1 && OthersInhabited(d)
  {
    RootBeside(d);
    if "" in d && |d| > 1 {
      if OthersInhabited(d) {
        forall order | IsOrderOf(order, d) ensures VerdictFor(d, order) == Panics {
          FirstLoopMeaning(d, order);
        }
      } else {
        var j :| j in d && j != "" && !HasUnder(d, InvertLast(j));
        var order := OrderFrom(d, j);
        assert VerdictFor(d, order) == Incomplete;
      }
    } else {
      SomeOrderPanics(d);
      var order := AnyOrder(d);
      assert VerdictFor(d, order) != Panics;
    }
  }

  lemma AnyOrder(d: set<string>) returns (order: seq<string>)
    ensures IsOrderOf(order, d)
  {
    order := [];
    if d != {} {
      var j :| j in d;
      order := OrderFrom(d, j);
    }
  }

  /** The root beside both its children always panics. */
  lemma RootBesideChildren(order: seq<string>)
    requires IsOrderOf(order, {"", "0", "1"})
    ensures VerdictFor({"", "0", "1"}, order) == Panics
  {
    var d := {"", "0", "1"};
    assert InvertLast("0") == "1" && InvertLast("1") == "0";
    assert "0" <= "0" && "1" <= "1";
    assert OthersInhabited(d);
    assert d != {""} by { assert "0" in d; }
    RootBeside(d);
    EveryOrderPanics(d);
  }

  /** What the two loops check, put together. */
  lemma SiblingsOfAll(d: set<string>)
    requires "" !in d
    ensures SiblingsInhabited(d) <==>
      forall j :: j in d ==> HasUnder(d, InvertLast(j)) && ParentsInhabited(d, j, 1)
  {
    forall j | j in d
      ensures JetInhabited(d, j) <==> HasUnder(d, InvertLast(j)) && ParentsInhabited(d, j, 1)
    {
      assert j[..|j|] == j;
      if HasUnder(d, InvertLast(j)) && ParentsInhabited(d, j, 1) {
        forall i | 1 <= i <= |j| ensures HasUnder(d, InvertLast(j[..i])) {}
      }
    }
  }

  lemma OnlyElement<T>(s: set<T>, x: T)
    requires |s| == 1 && x in s
    ensures s == {x}
  {
    assert |s - {x}| == 0;
  }

  // ---------------------------------------------------------------------
  // Coverage: every long enough path meets a jet
  // ---------------------------------------------------------------------

  predicate Binary(w: string) {
    forall i :: 0 <= i < |w| ==> w[i] == '0' || w[i] == '1'
  }

  predicate BinarySet(d: set<string>) {
    forall j :: j in d ==> Binary(j)
  }

  predicate Bounded(d: set<string>, n: nat) {
    forall j :: j in d ==> |j| <= n
  }

  predicate Hit(d: set<string>, w: string) {
    exists j :: j in d && j <= w
  }

  /** Every binary string of length n or more starts with some jet of `d`. */
  ghost predicate Covers(d: set<string>, n: nat) {
    forall w {:trigger Hit(d, w)} :: Binary(w) && |w| >= n ==> Hit(d, w)
  }

  predicate PrefixFree(d: set<string>) {
    forall a, b :: a in d && b in d && a <= b ==> a == b
  }

  lemma InvertStep(j: string, w: string, k: nat)
    requires Binary(j) && Binary(w) && k < |j| && k < |w| && j[..k] == w[..k] && j[k] != w[k]
    ensures InvertLast(j[..k + 1]) == w[..k + 1]
  {
    var x, y := InvertLast(j[..k + 1]), w[..k + 1];
    assert x[..k] == j[..k + 1][..k] == j[..k] && y[..k] == w[..k];
    assert x == x[..k] + [x[k]] && y == y[..k] + [y[k]];
  }

  /** Below an inhabited node the next node of a path is inhabited too. */
  lemma OneDown(d: set<string>, w: string, k: nat, j: string)
    requires Binary(j) && Binary(w) && k < |j| && k < |w| && j[..k] == w[..k]
    requires j in d && JetInhabited(d, j)
    ensures HasUnder(d, w[..k + 1])
  {
    if j[k] == w[k] {
      assert w[..k + 1] <= j;
    } else {
      InvertStep(j, w, k);
    }
  }

  lemma {:induction false} WalkDown(d: set<string>, n: nat, w: string, k: nat)
    requires BinarySet(d) && Bounded(d, n) && SiblingsInhabited(d)
    requires Binary(w) && |w| >= n && k <= |w| && HasUnder(d, w[..k])
    ensures Hit(d, w)
    decreases |w| - k
  {
    var j :| j in d && w[..k] <= j;
    assert j[..k] == w[..k];
    if |j| == k {
      assert j <= w;
    } else {
      OneDown(d, w, k, j);
      WalkDown(d, n, w, k + 1);
    }
  }

  /** Without any assumption on overlap, a positive answer means coverage. */
  lemma TilesCovers(d: set<string>, n: nat)
    requires BinarySet(d) && Bounded(d, n) && Tiles(d)
    ensures Covers(d, n)
  {
    forall w | Binary(w) && |w| >= n ensures Hit(d, w) {
      if "" in d {
        assert "" <= w;
      } else {
        var j :| j in d;
        assert w[..0] <= j;
        WalkDown(d, n, w, 0);
      }
    }
  }

  /** More jets cover no less. */
  lemma CoversMonotone(d: set<string>, e: set<string>, n: nat)
    requires d <= e && Covers(d, n)
    ensures Covers(e, n)
  {
    forall w | Binary(w) && |w| >= n ensures Hit(e, w) {
      assert Hit(d, w);
    }
  }

  function Zeros(n: nat): (z: string)
    ensures |z| == n && Binary(z)
  {
    seq(n, _ => '0')
  }

  /** A path through the sibling `x` of a node on the way to `j` meets what lies on both ways. */
  lemma MeetSibling(j: string, x: string, w: string, k: string)
    requires x != "" && x <= w && k <= w && x[..|x| - 1] <= j
    ensures k <= j || x <= k
  {
    if |k| < |x| {
      var p := x[..|x| - 1];
      assert k == w[..|k|] == p[..|k|] == j[..|k|];
    } else {
      assert x == w[..|x|] == k[..|x|];
    }
  }

  lemma CoversTiles(d: set<string>, n: nat)
    requires BinarySet(d) && Bounded(d, n) && PrefixFree(d) && Covers(d, n)
    ensures Tiles(d)
  {
    assert Hit(d, Zeros(n));
    if "" in d {
      forall j | j in d ensures j == "" {
        assert "" <= j;
      }
      assert d == {""};
    } else {
      forall j, i | j in d && 1 <= i <= |j| ensures HasUnder(d, InvertLast(j[..i])) {
        var x := InvertLast(j[..i]);
        var w := x + Zeros(n);
        assert Binary(w);
        assert Hit(d, w);
        var k :| k in d && k <= w;
        assert x[..i - 1] == j[..i][..i - 1] == j[..i - 1];
        MeetSibling(j, x, w, k);
        assert k <= j ==> k == j;
        assert x == w[..i];
      }
    }
  }

  // ---------------------------------------------------------------------
  // Full binary trees
  // ---------------------------------------------------------------------

  datatype Tree = Leaf | Node(zero: Tree, one: Tree)

  function Under(c: char, d: set<string>): set<string> {
    set x | x in d :: [c] + x
  }

  function Child(d: set<string>, c: char): set<string> {
    set j | j in d && j != "" && j[0] == c :: j[1..]
  }

  function Leaves(t: Tree): set<string> {
    match t
    case Leaf => {""}
    case Node(l, r) => Under('0', Leaves(l)) + Under('1', Leaves(r))
  }

  lemma ChildElement(d: set<string>, c: char, x: string)
    ensures x in Child(d, c) <==> [c] + x in d
  {
    assert ([c] + x)[1..] == x;
    if x in Child(d, c) {
      var j :| j in d && j != "" && j[0] == c && x == j[1..];
      assert j == [c] + x;
    }
  }

  lemma ChildShape(d: set<string>, c: char, n: nat)
    requires BinarySet(d) && Bounded(d, n) && n > 0
    ensures BinarySet(Child(d, c)) && Bounded(Child(d, c), n - 1)
  {
  }

  lemma ChildPrefixFree(d: set<string>, c: char)
    requires PrefixFree(d)
    ensures PrefixFree(Child(d, c))
  {
    forall a, b | a in Child(d, c) && b in Child(d, c) && a <= b ensures a == b {
      ChildElement(d, c, a);
      ChildElement(d, c, b);
      assert [c] + a <= [c] + b;
      assert a == ([c] + a)[1..] && b == ([c] + b)[1..];
    }
  }

  lemma ChildCovers(d: set<string>, c: char, n: nat)
    requires n > 0 && (c == '0' || c == '1') && "" !in d && Covers(d, n)
    ensures Covers(Child(d, c), n - 1)
  {
    forall w | Binary(w) && |w| >= n - 1 ensures Hit(Child(d, c), w) {
      assert Hit(d, [c] + w);
      var j :| j in d && j <= [c] + w;
      assert j[1..] in Child(d, c);
      assert j[1..] <= ([c] + w)[1..] == w;
    }
  }

  lemma SplitRoot(d: set<string>)
    requires BinarySet(d) && "" !in d
    ensures d == Under('0', Child(d, '0')) + Under('1', Child(d, '1'))
  {
    forall j ensures j in d <==> j in Under('0', Child(d, '0')) + Under('1', Child(d, '1')) {
      if j in d {
        assert j == [j[0]] + j[1..];
        ChildElement(d, j[0], j[1..]);
      } else if j in Under('0', Child(d, '0')) {
        var x :| x in Child(d, '0') && j == ['0'] + x;
        ChildElement(d, '0', x);
      } else if j in Under('1', Child(d, '1')) {
        var x :| x in Child(d, '1') && j == ['1'] + x;
        ChildElement(d, '1', x);
      }
    }
  }

  lemma RootAlone(d: set<string>)
    requires PrefixFree(d) && "" in d
    ensures d == {""}
  {
    forall j | j in d ensures j == "" {
      assert "" <= j;
    }
  }

  lemma {:induction false} GrowTree(d: set<string>, n: nat) returns (t: Tree)
    requires BinarySet(d) && Bounded(d, n) && PrefixFree(d) && Covers(d, n)
    ensures Leaves(t) == d
    decreases n
  {
    if "" in d {
      RootAlone(d);
      t := Leaf;
    } else {
      assert Hit(d, Zeros(n));
      ChildShape(d, '0', n);
      ChildShape(d, '1', n);
      ChildPrefixFree(d, '0');
      ChildPrefixFree(d, '1');
      ChildCovers(d, '0', n);
      ChildCovers(d, '1', n);
      var l := GrowTree(Child(d, '0'), n - 1);
      var r := GrowTree(Child(d, '1'), n - 1);
      SplitRoot(d);
      t := Node(l, r);
    }
  }

  lemma {:induction false} LeavesCode(t: Tree)
    ensures BinarySet(Leaves(t)) && PrefixFree(Leaves(t))
  {
    match t
    case Leaf =>
    case Node(l, r) =>
      LeavesCode(l);
      LeavesCode(r);
      forall a, b | a in Leaves(t) && b in Leaves(t) && a <= b ensures a == b {
        assert a[0] == b[0] && a[1..] <= b[1..];
        var side := if a[0] == '0' then Leaves(l) else Leaves(r);
        assert a[1..] in side && b[1..] in side;
        assert a == [a[0]] + a[1..] && b == [b[0]] + b[1..];
      }
  }

  lemma {:induction false} LeavesHit(t: Tree, w: string)
    requires Binary(w) && Bounded(Leaves(t), |w|)
    ensures Hit(Leaves(t), w)
  {
    match t
    case Leaf =>
      assert "" <= w;
    case Node(l, r) =>
      LeavesNonEmpty(l);
      var x :| x in Leaves(l);
      assert ['0'] + x in Leaves(t);
      var c := w[0];
      var sub := if c == '0' then l else r;
      forall y | y in Leaves(sub) ensures |y| <= |w| - 1 {
        assert [c] + y in Leaves(t);
      }
      LeavesHit(sub, w[1..]);
      var j :| j in Leaves(sub) && j <= w[1..];
      assert [c] + j in Leaves(t) && [c] + j <= w;
  }

  lemma {:induction false} LeavesNonEmpty(t: Tree)
    ensures Leaves(t) != {}
  {
    if t.Node? {
      LeavesNonEmpty(t.zero);
      var x :| x in Leaves(t.zero);
      assert ['0'] + x in Leaves(t);
    }
  }

  lemma LeavesTile(t: Tree)
    ensures Tiles(Leaves(t))
  {
    var n := MaxLength(Leaves(t));
    LeavesCode(t);
    forall w | Binary(w) && |w| >= n ensures Hit(Leaves(t), w) {
      LeavesHit(t, w);
    }
    CoversTiles(Leaves(t), n);
  }

  ghost function MaxLength(d: set<string>): (n: nat)
    ensures Bounded(d, n)
    ensures d != {} ==> exists j :: j in d && |j| == n
  {
    if d == {} then 0 else
      var j :| j in d;
      var m := MaxLength(d - {j});
      assert d == (d - {j}) + {j};
      if |j| >= m || d == {j} then |j| else m
  }

  // ---------------------------------------------------------------------
  // The Kraft sum
  // ---------------------------------------------------------------------

  /** Sum over the jets j of `d` of 2^(n - |j|). */
  ghost function Kraft(d: set<string>, n: nat): nat
    requires Bounded(d, n)
  {
    if d == {} then 0 else
      var j :| j in d;
      Pow2(n - |j|) + Kraft(d - {j}, n)
  }

  lemma {:induction false} KraftRemove(d: set<string>, n: nat, x: string)
    requires Bounded(d, n) && x in d
    ensures Kraft(d, n) == Pow2(n - |x|) + Kraft(d - {x}, n)
    decreases d
  {
    var j :| j in d && Kraft(d, n) == Pow2(n - |j|) + Kraft(d - {j}, n);
    if j != x {
      KraftRemove(d - {j}, n, x);
      KraftRemove(d - {x}, n, j);
      assert d - {j} - {x} == d - {x} - {j};
    }
  }

  lemma {:induction false} KraftUnion(a: set<string>, b: set<string>, n: nat)
    requires Bounded(a, n) && Bounded(b, n) && a !! b
    ensures Kraft(a + b, n) == Kraft(a, n) + Kraft(b, n)
    decreases a
  {
    if a == {} {
      assert a + b == b;
    } else {
      var x :| x in a;
      KraftRemove(a, n, x);
      KraftRemove(a + b, n, x);
      assert a + b - {x} == (a - {x}) + b;
      KraftUnion(a - {x}, b, n);
    }
  }

  lemma {:induction false} KraftUnder(c: char, d: set<string>, n: nat)
    requires Bounded(d, n)
    ensures Bounded(Under(c, d), n + 1) && Kraft(Under(c, d), n + 1) == Kraft(d, n)
    decreases d
  {
    if d != {} {
      var x :| x in d;
      KraftRemove(d, n, x);
      assert [c] + x in Under(c, d);
      KraftRemove(Under(c, d), n + 1, [c] + x);
      assert Under(c, d) - {[c] + x} == Under(c, d - {x}) by {
        forall y | y in d && [c] + y == [c] + x ensures y == x {
          assert y == ([c] + y)[1..] && x == ([c] + x)[1..];
        }
      }
      KraftUnder(c, d - {x}, n);
    } else {
      assert Under(c, d) == {};
    }
  }

  lemma SidesDisjoint(zero: set<string>, one: set<string>)
    ensures Under('0', zero) !! Under('1', one)
  {
    assert forall x :: x in Under('0', zero) ==> x[0] == '0';
    assert forall x :: x in Under('1', one) ==> x[0] == '1';
  }

  lemma KraftSides(zero: set<string>, one: set<string>, n: nat)
    requires Bounded(zero, n) && Bounded(one, n)
    ensures Bounded(Under('0', zero) + Under('1', one), n + 1)
    ensures Kraft(Under('0', zero) + Under('1', one), n + 1) == Kraft(zero, n) + Kraft(one, n)
  {
    KraftUnder('0', zero, n);
    KraftUnder('1', one, n);
    SidesDisjoint(zero, one);
    KraftUnion(Under('0', zero), Under('1', one), n + 1);
  }

  lemma KraftSplit(d: set<string>, n: nat)
    requires BinarySet(d) && Bounded(d, n) && "" !in d && n > 0
    ensures Bounded(Child(d, '0'), n - 1) && Bounded(Child(d, '1'), n - 1)
    ensures Kraft(d, n) == Kraft(Child(d, '0'), n - 1) + Kraft(Child(d, '1'), n - 1)
  {
    SplitRoot(d);
    KraftSides(Child(d, '0'), Child(d, '1'), n - 1);
  }

  lemma CoversFromChildren(d: set<string>, n: nat)
    requires n > 0 && Covers(Child(d, '0'), n - 1) && Covers(Child(d, '1'), n - 1)
    ensures Covers(d, n)
  {
    forall w | Binary(w) && |w| >= n ensures Hit(d, w) {
      assert Hit(Child(d, w[0]), w[1..]);
      var j :| j in Child(d, w[0]) && j <= w[1..];
      ChildElement(d, w[0], j);
      assert [w[0]] + j <= w;
    }
  }

  ghost predicate KraftBound(d: set<string>, n: nat) {
    && Bounded(d, n)
    && Kraft(d, n) <= Pow2(n)
    && (Kraft(d, n) == Pow2(n) <==> Covers(d, n))
  }

  lemma KraftNone(d: set<string>)
    requires Bounded(d, 0) && "" !in d
    ensures KraftBound(d, 0)
  {
    assert d == {};
    assert Binary("") && !Hit(d, "");
  }

  lemma KraftRoot(d: set<string>, n: nat)
    requires d == {""}
    ensures KraftBound(d, n)
  {
    KraftRemove(d, n, "");
    assert d - {""} == {};
    forall w | Binary(w) && |w| >= n ensures Hit(d, w) {
      assert "" <= w;
    }
  }

  lemma CoversSplit(d: set<string>, n: nat)
    requires "" !in d && n > 0
    ensures Covers(d, n) <==> Covers(Child(d, '0'), n - 1) && Covers(Child(d, '1'), n - 1)
  {
    if Covers(d, n) {
      ChildCovers(d, '0', n);
      ChildCovers(d, '1', n);
    }
    if Covers(Child(d, '0'), n - 1) && Covers(Child(d, '1'), n - 1) {
      CoversFromChildren(d, n);
    }
  }

  lemma KraftStep(d: set<string>, n: nat)
    requires BinarySet(d) && Bounded(d, n) && "" !in d && n > 0
    requires KraftBound(Child(d, '0'), n - 1) && KraftBound(Child(d, '1'), n - 1)
    ensures KraftBound(d, n)
  {
    KraftSplit(d, n);
    CoversSplit(d, n);
  }

  /** Kraft's inequality for jets, with equality exactly when they cover. */
  lemma {:induction false} KraftInequality(d: set<string>, n: nat)
    requires BinarySet(d) && Bounded(d, n) && PrefixFree(d)
    ensures KraftBound(d, n)
    decreases n
  {
    if "" in d {
      RootAlone(d);
      KraftRoot(d, n);
    } else if n == 0 {
      KraftNone(d);
    } else {
      ChildShape(d, '0', n);
      ChildPrefixFree(d, '0');
      KraftInequality(Child(d, '0'), n - 1);
      ChildShape(d, '1', n);
      ChildPrefixFree(d, '1');
      KraftInequality(Child(d, '1'), n - 1);
      KraftStep(d, n);
    }
  }

  // ---------------------------------------------------------------------
  // What the answer means
  // ---------------------------------------------------------------------

  /**
   For jets none of which contains another, a positive answer, coverage, being
   the leaf set of a full binary tree and Kraft equality are the same thing.
   */
  lemma CompletenessTheorem(d: set<string>, n: nat)
    requires BinarySet(d) && Bounded(d, n) && PrefixFree(d)
    ensures Tiles(d) <==> Covers(d, n)
    ensures Tiles(d) <==> exists t :: Leaves(t) == d
    ensures Tiles(d) <==> Kraft(d, n) == Pow2(n)
  {
    KraftInequality(d, n);
    if Tiles(d) {
      TilesCovers(d, n);
    }
    if Covers(d, n) {
      CoversTiles(d, n);
      var t := GrowTree(d, n);
    }
    if t :| Leaves(t) == d {
      LeavesTile(t);
    }
  }

  /** The jets of `d` with no other jet of `d` below them. */
  function Deepest(d: set<string>): set<string> {
    set j | j in d && forall k :: k in d && j <= k ==> k == j
  }

  lemma {:induction false} ReachDeepest(d: set<string>, n: nat, j: string) returns (m: string)
    requires j in d && Bounded(d, n)
    ensures m in Deepest(d) && j <= m
    decreases n - |j|
  {
    if j in Deepest(d) {
      m := j;
    } else {
      var k :| k in d && j <= k && k != j;
      m := ReachDeepest(d, n, k);
      assert m[..|j|] == m[..|k|][..|j|];
    }
  }

  lemma DeepestInhabited(d: set<string>, n: nat, j: string, i: nat)
    requires Bounded(d, n) && SiblingsInhabited(d) && j in Deepest(d) && 1 <= i <= |j|
    ensures HasUnder(Deepest(d), InvertLast(j[..i]))
  {
    assert JetInhabited(d, j);
    var k :| k in d && InvertLast(j[..i]) <= k;
    var m := ReachDeepest(d, n, k);
    assert m[..i] == m[..|k|][..i] == InvertLast(j[..i]);
  }

  lemma InhabitedFromDeepest(d: set<string>, n: nat, j: string, i: nat)
    requires Bounded(d, n) && SiblingsInhabited(Deepest(d)) && j in d && 1 <= i <= |j|
    ensures HasUnder(d, InvertLast(j[..i]))
  {
    var m := ReachDeepest(d, n, j);
    assert JetInhabited(Deepest(d), m);
    assert m[..i] == m[..|j|][..i] == j[..i];
  }

  lemma DeepestTiles(d: set<string>)
    requires "" !in d && d != {}
    ensures Tiles(d) <==> Tiles(Deepest(d))
  {
    var n := MaxLength(d);
    var some :| some in d;
    var top := ReachDeepest(d, n, some);
    if SiblingsInhabited(d) {
      forall j, i | j in Deepest(d) && 1 <= i <= |j|
        ensures HasUnder(Deepest(d), InvertLast(j[..i]))
      {
        DeepestInhabited(d, n, j, i);
      }
    }
    if SiblingsInhabited(Deepest(d)) {
      forall j, i | j in d && 1 <= i <= |j| ensures HasUnder(d, InvertLast(j[..i])) {
        InhabitedFromDeepest(d, n, j, i);
      }
    }
  }

  /**
   Exactly when the source answers "complete", for every set of jet ids: the
   deepest jets are the leaves of a full binary tree, and the root's id is
   absent or alone.
   */
  lemma OverlapTheorem(d: set<string>)
    requires BinarySet(d)
    ensures Tiles(d) <==> ("" in d ==> d == {""}) && exists t :: Leaves(t) == Deepest(d)
  {
    var n := MaxLength(d);
    if d == {""} {
      assert Leaves(Leaf) == Deepest(d);
    } else if "" !in d {
      if d != {} {
        DeepestTiles(d);
      } else {
        assert Deepest(d) == {};
        forall t ensures Leaves(t) != {} {
          LeavesNonEmpty(t);
        }
      }
      CompletenessTheorem(Deepest(d), n);
    }
  }

  /** Coverage alone is not enough once jets overlap: these cover everything. */
  lemma OverlapCounterexample()
    ensures Covers({"0", "1", "00"}, 1) && !Tiles({"0", "1", "00"})
  {
    var d := {"0", "1", "00"};
    forall w | Binary(w) && |w| >= 1 ensures Hit(d, w) {
      var j := [w[0]];
      assert j <= w && j in d;
    }
    var j := "00";
    var x := InvertLast(j[..2]);
    assert x[1] == '1';
    assert forall k :: k in d ==> |k| < 2 || k[1] == '0';
    assert !HasUnder(d, x);
    assert !JetInhabited(d, j);
  }
}
