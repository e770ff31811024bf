/** What recording one descriptor does to the forest, and what recording many comes to,
    whatever their order. */
module RecordOrder {
  import opened Common
  import opened Forest

  /** The new node's tree and the trees that stay where they are. */
  lemma {:induction false} Pieces(f: Forest, n: Node)
    requires Distinct(f) && n !in Nodes(f)
    ensures var tree, others := Cons(n, Select(f, n.dId, true), Nil), Select(f, n.dId, false);
      && Distinct(tree) && Distinct(others) && Nodes(tree) !! Nodes(others)
      && Nodes(tree) + Nodes(others) == Nodes(f) + {n}
  {
    SelectShape(f, n.dId, true);
    SelectShape(f, n.dId, false);
    SelectSplits(f, n.dId);
    assert Nodes(Cons(n, Select(f, n.dId, true), Nil)) == {n} + Nodes(Select(f, n.dId, true));
  }

  /** Recording keeps every node in the forest exactly once. */
  lemma {:induction false} RecordNodes(f: Forest, n: Node)
    requires Distinct(f) && n !in Nodes(f)
    ensures Distinct(Record(f, n)) && Nodes(Record(f, n)) == Nodes(f) + {n}
  {
    var tree, others := Cons(n, Select(f, n.dId, true), Nil), Select(f, n.dId, false);
    Pieces(f, n);
    if Chosen(f, n).Some? {
      ChosenIsNode(f, n);
      GraftNodes(others, Chosen(f, n).value, tree);
    } else {
      AppendShape(others, tree);
    }
  }

  lemma {:induction false} FirstWithIdFinds(s: seq<Node>, id: nat)
    ensures match FirstWithId(s, id)
      case Some(p) => p in s && p.dId == id
      case None => forall x :: x in s ==> x.dId != id
  {
    if s != [] && s[0].dId != id {
      FirstWithIdFinds(s[1..], id);
      assert s == [s[0]] + s[1..];
    }
  }

  /** It is the first with that id. */
  lemma {:induction false} FirstComesFirst(s: seq<Node>, id: nat) returns (k: nat)
    requires FirstWithId(s, id).Some?
    ensures k < |s| && s[k] == FirstWithId(s, id).value && s[k].dId == id
    ensures forall j :: 0 <= j < k ==> s[j].dId != id
  {
    if s[0].dId == id {
      k := 0;
    } else {
      var i := FirstComesFirst(s[1..], id);
      k := i + 1;
    }
  }

  lemma {:induction false} ChosenIsNode(f: Forest, n: Node)
    requires Chosen(f, n).Some?
    ensures var p := Chosen(f, n).value;
      p in Nodes(Select(f, n.dId, false)) && p.dId == n.parentDId != n.dId && n.parentDId != 0
  {
    var others := Select(f, n.dId, false);
    FirstWithIdFinds(Preorder(others), n.parentDId);
    PreorderNodes(others);
    assert Chosen(f, n) == FirstWithId(Preorder(others), n.parentDId);
  }

  /** The new node goes under the chosen one; roots that named the new node as their parent
      move below it; nothing else moves. */
  lemma {:induction false} RecordParents(f: Forest, n: Node, x: Node)
    requires Distinct(f) && n !in Nodes(f) && x in Nodes(f) + {n}
    ensures Parent(Record(f, n), x)
      == if x == n then Chosen(f, n)
         else if Parent(f, x) == None && x.parentDId == n.dId then Some(n)
         else Parent(f, x)
  {
    var mine, others := Select(f, n.dId, true), Select(f, n.dId, false);
    var tree := Cons(n, mine, Nil);
    Pieces(f, n);
    if x != n { PieceParents(f, n, x); }
    if Chosen(f, n).Some? {
      ChosenIsNode(f, n);
      GraftParents(others, Chosen(f, n).value, tree, x, None);
    } else {
      AppendParents(others, tree, x, None);
    }
  }

  /** The lists of siblings after a recording: orphans go below the new node in the order they
      had, and the new node comes last where it is put. */
  lemma {:induction false} RecordLists(f: Forest, n: Node, x: Node)
    requires Distinct(f) && n !in Nodes(f) && x in Nodes(f) + {n}
    ensures Roots(Record(f, n)) == Filter(Roots(f), n.dId, false) + if Chosen(f, n) == None then [n] else []
    ensures KidsOf(Record(f, n), x)
      == (if x == n then Filter(Roots(f), n.dId, true) else KidsOf(f, x)) + if Chosen(f, n) == Some(x) then [n] else []
  {
    var mine, others := Select(f, n.dId, true), Select(f, n.dId, false);
    var tree := Cons(n, mine, Nil);
    Pieces(f, n);
    SelectShape(f, n.dId, true);
    SelectShape(f, n.dId, false);
    if Chosen(f, n).Some? {
      var p := Chosen(f, n).value;
      ChosenIsNode(f, n);
      GraftNodes(others, p, tree);
      GraftKids(others, p, tree, x);
    } else {
      AppendShape(others, tree);
    }
  }

  /** What Filter takes is, in the order it had, what names (or does not name) the id. */
  lemma {:induction false} FilterKeepsOrder(s: seq<Node>, id: nat, take: bool)
    ensures Subsequence(Filter(s, id, take), s)
    ensures forall i :: 0 <= i < |s| ==> (s[i] in Filter(s, id, take) <==> (s[i].parentDId == id) == take)
  {
    if s != [] {
      FilterKeepsOrder(s[1..], id, take);
      SubsequencePrepend(s[0], Filter(s[1..], id, take), s[1..]);
      assert s == [s[0]] + s[1..] && [] + Filter(s[1..], id, take) == Filter(s[1..], id, take);
      FilterTakesOnly(s[1..], id, take);
    }
  }

  lemma {:induction false} FilterTakesOnly(s: seq<Node>, id: nat, take: bool)
    ensures forall i :: 0 <= i < |Filter(s, id, take)| ==> (Filter(s, id, take)[i].parentDId == id) == take
  {
    if s != [] { FilterTakesOnly(s[1..], id, take); }
  }

  lemma {:induction false} PieceParents(f: Forest, n: Node, x: Node)
    requires Distinct(f) && n !in Nodes(f) && x in Nodes(f)
    ensures var mine, others := Select(f, n.dId, true), Select(f, n.dId, false);
      if x in Nodes(others) then
        && Parent(others, x) == Parent(f, x)
        && (Parent(f, x) == None ==> x.parentDId != n.dId)
      else
        && x in Nodes(mine)
        && (Parent(f, x) == None ==> x.parentDId == n.dId)
        && ParentUnder(mine, x, Some(n)) == if Parent(f, x) == None then Some(n) else Parent(f, x)
  {
    SelectSplits(f, n.dId);
    if x in Nodes(Select(f, n.dId, false)) {
      SelectParents(f, n.dId, false, x, None);
      RootIsSelected(f, n.dId, false, x);
    } else {
      SelectParents(f, n.dId, true, x, Some(n));
      RootIsSelected(f, n.dId, true, x);
      UnderIsRootOrInside(f, x, Some(n));
    }
  }

  /** A selected root has passed the test. */
  lemma {:induction false} RootIsSelected(f: Forest, id: nat, take: bool, x: Node)
    requires Distinct(f) && x in Nodes(Select(f, id, take))
    ensures Parent(f, x) == None ==> (x.parentDId == id) == take
  {
    SelectShape(f, id, take);
    LocatedUnder(f, x, None);
    if x in Roots(f) {
      SelectedRoot(f, id, take, x);
    }
  }

  lemma {:induction false} SelectedRoot(f: Forest, id: nat, take: bool, x: Node)
    requires Distinct(f) && x in Roots(f) && x in Nodes(Select(f, id, take))
    ensures (x.parentDId == id) == take
  {
    SelectShape(f.rest, id, take);
    if x != f.root {
      assert x in Roots(f.rest);
      RootsAreNodes(f.rest);
      SelectedRoot(f.rest, id, take, x);
    }
  }

  lemma {:induction false} UnderIsRootOrInside(f: Forest, x: Node, up: Option<Node>)
    requires Distinct(f) && x in Nodes(f)
    ensures ParentUnder(f, x, up) == if Parent(f, x) == None then up else Parent(f, x)
  {
    LocatedUnder(f, x, up);
    LocatedUnder(f, x, None);
    if x != f.root && x !in Nodes(f.kids) {
      UnderIsRootOrInside(f.rest, x, up);
    }
  }

  // ---------- many descriptors ----------

  ghost function RecordAll(rs: seq<Node>): Forest {
    if rs == [] then Nil else Record(RecordAll(rs[..|rs| - 1]), rs[|rs| - 1])
  }

  lemma {:induction false} RecordedNodes(rs: seq<Node>)
    requires NoRepeats(rs)
    ensures Distinct(RecordAll(rs)) && Nodes(RecordAll(rs)) == SetOf(rs)
  {
    if rs != [] {
      var n, before := rs[|rs| - 1], rs[..|rs| - 1];
      RecordedNodes(before);
      assert rs == before + [n];
      assert SetOf(rs) == SetOf(before) + {n};
      RecordNodes(RecordAll(before), n);
    }
  }

  /** For any list of different nodes, whatever their ids say: every one of them ends up in the
      forest exactly once, and nothing else does. */
  lemma {:induction false} AllRecordedOnce(rs: seq<Node>)
    requires NoRepeats(rs)
    ensures NoRepeats(Preorder(RecordAll(rs))) && SetOf(Preorder(RecordAll(rs))) == SetOf(rs)
  {
    RecordedNodes(rs);
    PreorderOnce(RecordAll(rs));
  }

  /** y is the node that x names as its parent. */
  /** Siblings stand in the order in which they were recorded. */
  lemma {:induction false} SiblingsInOrder(rs: seq<Node>, x: Node)
    requires NoRepeats(rs) && x in rs
    ensures Subsequence(Roots(RecordAll(rs)), rs)
    ensures Subsequence(KidsOf(RecordAll(rs), x), rs)
  {
    RootsInOrder(rs);
    KidsInOrder(rs, x);
  }

  lemma {:induction false} RootsInOrder(rs: seq<Node>)
    requires NoRepeats(rs)
    ensures Subsequence(Roots(RecordAll(rs)), rs)
  {
    if rs != [] {
      var before, n := rs[..|rs| - 1], rs[|rs| - 1];
      var f := RecordAll(before);
      RecordedNodes(before);
      RootsInOrder(before);
      assert rs == before + [n];
      var stay := Filter(Roots(f), n.dId, false);
      FilterKeepsOrder(Roots(f), n.dId, false);
      SubsequenceTransitive(stay, Roots(f), before);
      SubsequenceAppend(stay, before, [n]);
      RecordLists(f, n, n);
      assert Roots(RecordAll(rs)) == if Chosen(f, n) == None then stay + [n] else stay;
    }
  }

  lemma {:induction false} KidsInOrder(rs: seq<Node>, x: Node)
    requires NoRepeats(rs) && x in rs
    ensures Subsequence(KidsOf(RecordAll(rs), x), rs)
  {
    var before, n := rs[..|rs| - 1], rs[|rs| - 1];
    assert rs == before + [n];
    RecordedNodes(before);
    OrphansInOrder(before, n);
    if x != n { KidsInOrder(before, x); }
    NextInOrder(RecordAll(before), before, n, x);
  }

  lemma {:induction false} OrphansInOrder(rs: seq<Node>, n: Node)
    requires NoRepeats(rs)
    ensures Subsequence(Filter(Roots(RecordAll(rs)), n.dId, true), rs)
  {
    var roots := Roots(RecordAll(rs));
    RootsInOrder(rs);
    FilterKeepsOrder(roots, n.dId, true);
    SubsequenceTransitive(Filter(roots, n.dId, true), roots, rs);
  }

  lemma {:induction false} NextInOrder(f: Forest, before: seq<Node>, n: Node, x: Node)
    requires Distinct(f) && n !in Nodes(f) && x in Nodes(f) + {n}
    requires Subsequence(if x == n then Filter(Roots(f), n.dId, true) else KidsOf(f, x), before)
    ensures Subsequence(KidsOf(Record(f, n), x), before + [n])
  {
    var kids := if x == n then Filter(Roots(f), n.dId, true) else KidsOf(f, x);
    RecordLists(f, n, x);
    SubsequenceAppend(kids, before, [n]);
    assert KidsOf(Record(f, n), x) == if Chosen(f, n) == Some(x) then kids + [n] else kids;
  }

  predicate IsParent(y: Node, x: Node) {
    x.parentDId != 0 && x.parentDId != x.dId && y.dId == x.parentDId
  }

  predicate GoodIds(rs: seq<Node>) {
    && (forall i :: 0 <= i < |rs| ==> rs[i].dId != 0)
    && (forall i, j :: 0 <= i < j < |rs| ==> rs[i].dId != rs[j].dId)
  }

  /** Every node is under the node it names, if that was recorded, and at top level otherwise. */
  ghost predicate Placed(f: Forest, rs: seq<Node>) { forall x :: x in rs ==> PlacedAt(f, rs, x) }

  ghost predicate PlacedAt(f: Forest, rs: seq<Node>, x: Node) {
    match Parent(f, x)
    case Some(y) => y in rs && IsParent(y, x)
    case None => forall y :: y in rs ==> !IsParent(y, x)
  }

  /** Nodes that name each other as parents in a circle. */
  predicate IsCycle(rs: seq<Node>, older c: seq<Node>) {
    && c != []
    && (forall i :: 0 <= i < |c| ==> c[i] in rs)
    && (forall i :: 0 <= i < |c| - 1 ==> IsParent(c[i + 1], c[i]))
    && IsParent(c[0], c[|c| - 1])
  }

  ghost predicate HasCycle(rs: seq<Node>) { exists c :: IsCycle(rs, c) }

  /** A chain of parents up to a root. */
  lemma {:induction false} ChainToRoot(f: Forest, rs: seq<Node>, x: Node) returns (c: seq<Node>)
    requires Distinct(f) && Placed(f, rs) && Nodes(f) == SetOf(rs) && x in Nodes(f)
    ensures c != [] && c[0] == x && Parent(f, c[|c| - 1]) == None
    ensures forall i :: 0 <= i < |c| ==> c[i] in rs
    ensures forall i :: 0 <= i < |c| - 1 ==> IsParent(c[i + 1], c[i]) && Parent(f, c[i]) == Some(c[i + 1])
    decreases Depth(f, x)
  {
    Located(f, x);
    assert PlacedAt(f, rs, x);
    match Parent(f, x)
    case None => c := [x];
    case Some(p) =>
      var above := ChainToRoot(f, rs, p);
      c := [x] + above;
  }

  /** In a tree that was collected as an orphan, every chain of parents ends at an orphan. */
  lemma {:induction false} ChainStaysSelected(f: Forest, id: nat, take: bool, c: seq<Node>)
    requires Distinct(f) && c != [] && c[0] in Nodes(Select(f, id, take))
    requires forall i :: 0 <= i < |c| - 1 ==> Parent(f, c[i]) == Some(c[i + 1])
    ensures c[|c| - 1] in Nodes(Select(f, id, take))
  {
    if |c| > 1 {
      var g := Select(f, id, take);
      SelectShape(f, id, take);
      SelectParents(f, id, take, c[0], None);
      Located(g, c[0]);
      assert c[1] in Nodes(g);
      ChainStaysSelected(f, id, take, c[1..]);
    }
  }

  /** The new node finds the parent it names, unless that one is below one of its orphans,
      which takes a circle of parents. */
  lemma {:induction false} NewcomerPlaced(f: Forest, rs: seq<Node>, n: Node)
    requires Distinct(f) && Nodes(f) == SetOf(rs) && Placed(f, rs)
    requires NoRepeats(rs + [n]) && GoodIds(rs + [n]) && !HasCycle(rs + [n])
    ensures match Chosen(f, n)
      case Some(y) => y in rs && IsParent(y, n)
      case None => forall y :: y in rs ==> !IsParent(y, n)
  {
    if Chosen(f, n).Some? {
      ChosenIsNode(f, n);
      SelectShape(f, n.dId, false);
      var y := Chosen(f, n).value;
      assert y in Nodes(f) && y in rs;
    } else if n.parentDId != 0 && n.parentDId != n.dId {
      var others := Select(f, n.dId, false);
      FirstWithIdFinds(Preorder(others), n.parentDId);
      PreorderNodes(others);
      forall y | y in rs ensures !IsParent(y, n) {
        if IsParent(y, n) {
          OrphanCycle(f, rs, n, y);
        }
      }
    }
  }

  lemma {:induction false} OrphanCycle(f: Forest, rs: seq<Node>, n: Node, y: Node)
    requires Distinct(f) && Nodes(f) == SetOf(rs) && Placed(f, rs)
    requires GoodIds(rs + [n]) && y in rs && IsParent(y, n)
    requires y !in Nodes(Select(f, n.dId, false))
    ensures HasCycle(rs + [n])
  {
    SelectSplits(f, n.dId);
    var c := ChainToRoot(f, rs, y);
    ChainStaysSelected(f, n.dId, true, c);
    var root := c[|c| - 1];
    RootIsSelected(f, n.dId, true, root);
    assert (rs + [n])[|rs|] == n && root in rs + [n];
    DifferentIds(rs, n, root);
    assert IsParent(n, root);
    assert IsCycle(rs + [n], c + [n]);
  }

  lemma {:induction false} DifferentIds(rs: seq<Node>, n: Node, x: Node)
    requires GoodIds(rs + [n]) && x in rs
    ensures x.dId != n.dId && n.dId != 0 && x.dId != 0
  {
    var i :| 0 <= i < |rs| && rs[i] == x;
    assert (rs + [n])[i] == x && (rs + [n])[|rs|] == n;
  }

  lemma {:induction false} CycleInPrefix(rs: seq<Node>, n: Node)
    requires !HasCycle(rs + [n])
    ensures !HasCycle(rs)
  {
    if c :| IsCycle(rs, c) {
      assert IsCycle(rs + [n], c);
    }
  }

  lemma {:induction false} RecordKeepsPlaced(f: Forest, rs: seq<Node>, n: Node)
    requires Distinct(f) && Nodes(f) == SetOf(rs) && Placed(f, rs)
    requires NoRepeats(rs + [n]) && GoodIds(rs + [n]) && !HasCycle(rs + [n]) && n !in rs
    ensures Placed(Record(f, n), rs + [n])
  {
    NewcomerPlaced(f, rs, n);
    forall x | x in rs + [n] ensures PlacedAt(Record(f, n), rs + [n], x) {
      RecordParents(f, n, x);
      if x != n {
        assert PlacedAt(f, rs, x);
        DifferentIds(rs, n, x);
        if Parent(f, x).Some? {
          DifferentIds(rs, n, Parent(f, x).value);
        }
      }
    }
  }

  lemma {:induction false} AcyclicIsPlaced(rs: seq<Node>)
    requires NoRepeats(rs) && GoodIds(rs) && !HasCycle(rs)
    ensures Placed(RecordAll(rs), rs)
  {
    if rs != [] {
      var n, before := rs[|rs| - 1], rs[..|rs| - 1];
      assert rs == before + [n];
      RecordedNodes(before);
      CycleInPrefix(before, n);
      AcyclicIsPlaced(before);
      RecordKeepsPlaced(RecordAll(before), before, n);
    }
  }

  /** Along a chain of parents in the forest the depth falls by one at each step. */
  lemma {:induction false} DepthFalls(f: Forest, rs: seq<Node>, c: seq<Node>, k: nat)
    requires Distinct(f) && Nodes(f) == SetOf(rs) && Placed(f, rs) && GoodIds(rs) && NoRepeats(rs)
    requires k < |c| && forall i :: 0 <= i < |c| ==> c[i] in rs
    requires forall i :: 0 <= i < |c| - 1 ==> IsParent(c[i + 1], c[i])
    ensures Depth(f, c[0]) == Depth(f, c[k]) + k
  {
    if k > 0 {
      DepthFalls(f, rs, c, k - 1);
      OneUp(f, rs, c[k - 1], c[k]);
    }
  }

  lemma {:induction false} OneUp(f: Forest, rs: seq<Node>, x: Node, y: Node)
    requires Distinct(f) && Nodes(f) == SetOf(rs) && Placed(f, rs) && GoodIds(rs)
    requires x in rs && y in rs && IsParent(y, x)
    ensures Depth(f, x) == Depth(f, y) + 1
  {
    Located(f, x);
    assert PlacedAt(f, rs, x);
    var p := Parent(f, x).value;
    var i :| 0 <= i < |rs| && rs[i] == p;
    var j :| 0 <= j < |rs| && rs[j] == y;
    assert p.dId == y.dId;
    assert i == j;
  }

  /** For nodes with different non-zero ids, recorded in any order, every node ends up under the
      node it names, or at top level if there is none, if and only if no nodes name each other as
      parents in a circle. A node that names itself is no circle. */
  lemma {:induction false} PlacedIffAcyclic(rs: seq<Node>)
    requires NoRepeats(rs) && GoodIds(rs)
    ensures Placed(RecordAll(rs), rs) <==> !HasCycle(rs)
  {
    if !HasCycle(rs) {
      AcyclicIsPlaced(rs);
    } else {
      var f, c :| f == RecordAll(rs) && IsCycle(rs, c);
      RecordedNodes(rs);
      if Placed(f, rs) {
        DepthFalls(f, rs, c, |c| - 1);
        OneUp(f, rs, c[|c| - 1], c[0]);
        assert false;
      }
    }
  }

  /** Two orders of the same nodes give every node the same parent. */
  lemma {:induction false} OrderIndependence(rs: seq<Node>, rs': seq<Node>, x: Node)
    requires NoRepeats(rs) && GoodIds(rs) && !HasCycle(rs)
    requires NoRepeats(rs') && forall y :: y in rs <==> y in rs'
    requires x in rs
    ensures Parent(RecordAll(rs), x) == Parent(RecordAll(rs'), x)
  {
    SameIdsGood(rs, rs');
    SameNodesSameCycles(rs, rs');
    AcyclicIsPlaced(rs);
    AcyclicIsPlaced(rs');
    assert PlacedAt(RecordAll(rs), rs, x) && PlacedAt(RecordAll(rs'), rs', x);
    var a, b := Parent(RecordAll(rs), x), Parent(RecordAll(rs'), x);
    if a.Some? && b.Some? {
      var i :| 0 <= i < |rs| && rs[i] == a.value;
      assert b.value in rs;
      var j :| 0 <= j < |rs| && rs[j] == b.value;
      assert a.value.dId == b.value.dId;
      assert i == j;
    }
  }

  // ---------- circles make the order matter ----------

  /** A node is never put under any other than the one it names. */
  lemma {:induction false} ParentIsNamed(rs: seq<Node>, x: Node)
    requires NoRepeats(rs) && GoodIds(rs) && x in rs
    ensures match Parent(RecordAll(rs), x)
      case Some(y) => y in rs && IsParent(y, x)
      case None => true
  {
    var n, before := rs[|rs| - 1], rs[..|rs| - 1];
    var f := RecordAll(before);
    assert rs == before + [n];
    RecordedNodes(before);
    RecordParents(f, n, x);
    if x != n {
      ParentIsNamed(before, x);
      DifferentIds(before, n, x);
    } else if Chosen(f, n).Some? {
      ChosenIsNode(f, n);
      SelectShape(f, n.dId, false);
      assert Chosen(f, n).value in Nodes(f);
    }
  }

  lemma {:induction false} NotYetPlaced(before: seq<Node>, x: Node, y: Node)
    requires NoRepeats(before) && GoodIds(before + [y]) && x in before && IsParent(y, x)
    ensures Parent(RecordAll(before), x) == None
  {
    forall z | z in before ensures !IsParent(z, x) {
      DifferentIds(before, y, z);
    }
    assert GoodIds(before) by {
      forall i | 0 <= i < |before| ensures before[i].dId != 0 { assert (before + [y])[i] == before[i]; }
      forall i, j | 0 <= i < j < |before| ensures before[i].dId != before[j].dId {
        assert (before + [y])[i] == before[i] && (before + [y])[j] == before[j];
      }
    }
    ParentIsNamed(before, x);
  }

  /** A node recorded first is always found by the node it names. */
  lemma {:induction false} FirstIsPlaced(rs: seq<Node>, x: Node, y: Node)
    requires NoRepeats(rs) && GoodIds(rs) && rs != [] && rs[0] == x && y in rs && IsParent(y, x)
    ensures Parent(RecordAll(rs), x) == Some(y)
  {
    var n, before := rs[|rs| - 1], rs[..|rs| - 1];
    assert rs == before + [n] && x != y;
    assert before[0] == x;
    RecordedNodes(before);
    RecordParents(RecordAll(before), n, x);
    if y == n {
      NotYetPlaced(before, x, y);
    } else {
      FirstIsPlaced(before, x, y);
    }
  }

  /** rs with its i-th node moved to the front. */
  function ToFront(rs: seq<Node>, i: nat): seq<Node>
    requires i < |rs|
  {
    [rs[i]] + rs[..i] + rs[i + 1..]
  }

  lemma {:induction false} ToFrontIsReordering(rs: seq<Node>, i: nat)
    requires i < |rs| && NoRepeats(rs)
    ensures NoRepeats(ToFront(rs, i)) && forall y :: y in rs <==> y in ToFront(rs, i)
  {
    var rs' := ToFront(rs, i);
    forall y | y in rs ensures y in rs' {
      var j :| 0 <= j < |rs| && rs[j] == y;
      assert rs'[if j == i then 0 else if j < i then j + 1 else j] == y;
    }
  }

  /** Another order of the same nodes that gives x another parent. */
  ghost predicate Differs(rs: seq<Node>, older rs': seq<Node>, older x: Node) {
    && (forall i :: 0 <= i < |rs'| ==> rs'[i] in rs)
    && NoRepeats(rs') && (forall y :: y in rs ==> y in rs')
    && x in rs && Parent(RecordAll(rs), x) != Parent(RecordAll(rs'), x)
  }

  ghost predicate OrderMatters(rs: seq<Node>) { exists rs', x :: Differs(rs, rs', x) }

  /** The parents that recording arrives at depend on the order if and only if there is a circle. */
  lemma {:induction false} OrderMattersIffCycle(rs: seq<Node>)
    requires NoRepeats(rs) && GoodIds(rs)
    ensures OrderMatters(rs) <==> HasCycle(rs)
  {
    if HasCycle(rs) {
      var rs', x := CircleDiffers(rs);
    } else if rs', x :| Differs(rs, rs', x) {
      OrderIndependence(rs, rs', x);
    }
  }

  /** Recorded first, a misplaced node would have been found by the node it names. */
  lemma {:induction false} CircleDiffers(rs: seq<Node>) returns (rs': seq<Node>, x: Node)
    requires NoRepeats(rs) && GoodIds(rs) && HasCycle(rs)
    ensures Differs(rs, rs', x)
  {
    PlacedIffAcyclic(rs);
    var i :| 0 <= i < |rs| && !PlacedAt(RecordAll(rs), rs, rs[i]);
    x, rs' := rs[i], ToFront(rs, i);
    ParentIsNamed(rs, x);
    ToFrontIsReordering(rs, i);
    SameIdsGood(rs, rs');
    var y :| y in rs && IsParent(y, x);
    FirstIsPlaced(rs', x, y);
  }

  lemma {:induction false} SameIdsGood(rs: seq<Node>, rs': seq<Node>)
    requires GoodIds(rs) && NoRepeats(rs') && forall y :: y in rs' ==> y in rs
    ensures GoodIds(rs')
  {
    forall i | 0 <= i < |rs'| ensures rs'[i].dId != 0 {
      assert rs'[i] in rs;
    }
    forall i, j | 0 <= i < j < |rs'| ensures rs'[i].dId != rs'[j].dId {
      assert rs'[i] in rs && rs'[j] in rs;
      var a :| 0 <= a < |rs| && rs[a] == rs'[i];
      var b :| 0 <= b < |rs| && rs[b] == rs'[j];
      assert a != b;
    }
  }

  lemma {:induction false} SameNodesSameCycles(rs: seq<Node>, rs': seq<Node>)
    requires !HasCycle(rs) && forall y :: y in rs' ==> y in rs
    ensures !HasCycle(rs')
  {
    if c :| IsCycle(rs', c) {
      assert IsCycle(rs, c);
    }
  }
}
