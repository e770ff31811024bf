/** The forest of descriptors as a value: what the linked nodes of src/libpst.c stand for. */
module Forest {
  import opened Common

  /** pst_desc_tree. The two ids are set before a node is recorded and never change. */
  class Node {
    const dId: nat
    const parentDId: nat
    var noChild: int
    var prev: Node?
    var next: Node?
    var parent: Node?
    var child: Node?
    var childTail: Node?

    constructor (dId: nat, parentDId: nat)
      ensures this.dId == dId && this.parentDId == parentDId
    {
      this.dId, this.parentDId := dId, parentDId;
      noChild, prev, next, parent, child, childTail := 0, null, null, null, null, null;
    }
  }

  /** A list of trees: the first root, the trees below it, and the rest of the list. */
  datatype Forest = Nil | Cons(root: Node, kids: Forest, rest: Forest)

  ghost function Nodes(f: Forest): set<Node> {
    if f.Nil? then {} else {f.root} + Nodes(f.kids) + Nodes(f.rest)
  }

  /** No node occurs twice. */
  ghost predicate Distinct(f: Forest) {
    f.Nil? ||
    (&& Distinct(f.kids) && Distinct(f.rest)
     && f.root !in Nodes(f.kids) && f.root !in Nodes(f.rest)
     && Nodes(f.kids) !! Nodes(f.rest))
  }

  function Preorder(f: Forest): seq<Node> {
    if f.Nil? then [] else [f.root] + Preorder(f.kids) + Preorder(f.rest)
  }

  function Roots(f: Forest): seq<Node> {
    if f.Nil? then [] else [f.root] + Roots(f.rest)
  }

  ghost function KidsOf(f: Forest, x: Node): seq<Node> {
    if f.Nil? then []
    else if x == f.root then Roots(f.kids)
    else if x in Nodes(f.kids) then KidsOf(f.kids, x)
    else KidsOf(f.rest, x)
  }

  /** The node above x, or `up` when x is a root of f. */
  ghost function ParentUnder(f: Forest, x: Node, up: Option<Node>): Option<Node> {
    if f.Nil? then None
    else if x == f.root then up
    else if x in Nodes(f.kids) then ParentUnder(f.kids, x, Some(f.root))
    else ParentUnder(f.rest, x, up)
  }

  ghost function Parent(f: Forest, x: Node): Option<Node> { ParentUnder(f, x, None) }

  ghost function Depth(f: Forest, x: Node): nat {
    if f.Nil? || x == f.root then 0
    else if x in Nodes(f.kids) then 1 + Depth(f.kids, x)
    else Depth(f.rest, x)
  }

  // ---------- recording a descriptor ----------

  function Append(f: Forest, g: Forest): Forest {
    if f.Nil? then g else Cons(f.root, f.kids, Append(f.rest, g))
  }

  /** The top-level trees whose root has (or has not) parent id `id`. */
  function Select(f: Forest, id: nat, take: bool): Forest {
    if f.Nil? then Nil
    else if (f.root.parentDId == id) == take then Cons(f.root, f.kids, Select(f.rest, id, take))
    else Select(f.rest, id, take)
  }

  /** Adds trees t as the last ones below node p. */
  ghost function Graft(f: Forest, p: Node, t: Forest): Forest {
    if f.Nil? then Nil
    else if p == f.root then Cons(p, Append(f.kids, t), f.rest)
    else if p in Nodes(f.kids) then Cons(f.root, Graft(f.kids, p, t), f.rest)
    else Cons(f.root, f.kids, Graft(f.rest, p, t))
  }

  function FirstWithId(s: seq<Node>, id: nat): Option<Node> {
    if s == [] then None
    else if s[0].dId == id then Some(s[0])
    else FirstWithId(s[1..], id)
  }

  /** The node that a new node is put under, if any: it is sought among the trees left after
      the new node's orphans have been collected. */
  function Chosen(f: Forest, n: Node): Option<Node> {
    if n.parentDId == 0 || n.parentDId == n.dId then None
    else FirstWithId(Preorder(Select(f, n.dId, false)), n.parentDId)
  }

  ghost function Record(f: Forest, n: Node): Forest {
    var tree := Cons(n, Select(f, n.dId, true), Nil);
    var others := Select(f, n.dId, false);
    match Chosen(f, n)
    case Some(p) => Graft(others, p, tree)
    case None => Append(others, tree)
  }

  // ---------- shapes ----------

  lemma {:induction false} PreorderHas(f: Forest, x: Node)
    ensures x in Preorder(f) <==> x in Nodes(f)
  {
    if f.Cons? {
      PreorderHas(f.kids, x);
      PreorderHas(f.rest, x);
    }
  }

  lemma {:induction false} PreorderNodes(f: Forest)
    ensures forall x :: x in Preorder(f) <==> x in Nodes(f)
  {
    forall x ensures x in Preorder(f) <==> x in Nodes(f) {
      PreorderHas(f, x);
    }
  }

  ghost function SetOf(s: seq<Node>): set<Node> { set x | x in s }

  predicate NoRepeats(s: seq<Node>) {
    forall i, j :: 0 <= i < j < |s| ==> s[i] != s[j]
  }

  lemma {:induction false} NoRepeatsAppend(a: seq<Node>, b: seq<Node>)
    requires NoRepeats(a) && NoRepeats(b) && forall x :: x in a ==> x !in b
    ensures NoRepeats(a + b)
  {
    forall i, j | 0 <= i < j < |a + b| ensures (a + b)[i] != (a + b)[j] {
      if i < |a| <= j {
        assert a[i] in a && b[j - |a|] in b;
      }
    }
  }

  lemma {:induction false} PreorderNoRepeats(f: Forest)
    requires Distinct(f)
    ensures NoRepeats(Preorder(f))
  {
    if f.Cons? {
      PreorderNoRepeats(f.kids);
      PreorderNoRepeats(f.rest);
      PreorderHas(f.kids, f.root);
      NoRepeatsAppend([f.root], Preorder(f.kids));
      forall x | x in [f.root] + Preorder(f.kids) ensures x !in Preorder(f.rest) {
        PreorderHas(f.kids, x);
        PreorderHas(f.rest, x);
      }
      NoRepeatsAppend([f.root] + Preorder(f.kids), Preorder(f.rest));
    }
  }

  lemma {:induction false} SetOfAppend(a: seq<Node>, b: seq<Node>)
    ensures SetOf(a + b) == SetOf(a) + SetOf(b)
  {
  }

  lemma {:induction false} PreorderSet(f: Forest)
    ensures SetOf(Preorder(f)) == Nodes(f)
  {
    if f.Cons? {
      PreorderSet(f.kids);
      PreorderSet(f.rest);
      SetOfAppend([f.root], Preorder(f.kids));
      SetOfAppend([f.root] + Preorder(f.kids), Preorder(f.rest));
    }
  }

  /** The preorder lists every node exactly once. */
  lemma {:induction false} PreorderOnce(f: Forest)
    requires Distinct(f)
    ensures SetOf(Preorder(f)) == Nodes(f) && NoRepeats(Preorder(f))
  {
    PreorderSet(f);
    PreorderNoRepeats(f);
  }

  lemma {:induction false} RootsAreNodes(f: Forest)
    ensures forall x :: x in Roots(f) ==> x in Nodes(f)
  {
    if f.Cons? {
      RootsAreNodes(f.rest);
    }
  }

  lemma {:induction false} KidsAreNodes(f: Forest, p: Node)
    ensures forall x :: x in KidsOf(f, p) ==> x in Nodes(f)
  {
    if f.Cons? {
      RootsAreNodes(f.kids);
      KidsAreNodes(f.kids, p);
      KidsAreNodes(f.rest, p);
    }
  }

  /** The nodes that are not roots. */
  ghost function Inner(f: Forest): set<Node> { Nodes(f) - SetOf(Roots(f)) }

  lemma {:induction false} KidsAreInner(f: Forest, p: Node)
    requires Distinct(f) && p in Nodes(f)
    ensures SetOf(KidsOf(f, p)) <= Inner(f)
  {
    forall i | 0 <= i < |KidsOf(f, p)| ensures KidsOf(f, p)[i] in Inner(f) {
      KidsHaveParent(f, p, KidsOf(f, p)[i], None);
    }
  }

  /** Every node is a root or listed below its parent, one level deeper. */
  lemma {:induction false} Located(f: Forest, x: Node)
    requires Distinct(f) && x in Nodes(f)
    ensures match Parent(f, x)
      case None => x in Roots(f)
      case Some(p) => p in Nodes(f) && x in KidsOf(f, p) && Depth(f, x) == Depth(f, p) + 1
  {
    LocatedUnder(f, x, None);
  }

  lemma {:induction false} LocatedUnder(f: Forest, x: Node, up: Option<Node>)
    requires Distinct(f) && x in Nodes(f)
    ensures if x in Roots(f) then ParentUnder(f, x, up) == up && Depth(f, x) == 0
      else match ParentUnder(f, x, up)
        case None => false
        case Some(p) => p in Nodes(f) && x in KidsOf(f, p) && Depth(f, x) == Depth(f, p) + 1
  {
    RootsAreNodes(f.rest);
    if x == f.root {
    } else if x in Nodes(f.kids) {
      LocatedUnder(f.kids, x, Some(f.root));
    } else {
      LocatedUnder(f.rest, x, up);
    }
  }

  /** Conversely, what is listed below p has p as its parent. */
  lemma {:induction false} KidsHaveParent(f: Forest, p: Node, x: Node, up: Option<Node>)
    requires Distinct(f) && p in Nodes(f) && x in KidsOf(f, p)
    ensures x in Nodes(f) && ParentUnder(f, x, up) == Some(p)
    ensures x !in Roots(f)
  {
    KidsAreNodes(f, p);
    RootsAreNodes(f.rest);
    if p == f.root {
      RootsAreNodes(f.kids);
      LocatedUnder(f.kids, x, Some(p));
    } else if p in Nodes(f.kids) {
      KidsAreNodes(f.kids, p);
      KidsHaveParent(f.kids, p, x, Some(f.root));
    } else {
      KidsAreNodes(f.rest, p);
      KidsHaveParent(f.rest, p, x, up);
    }
  }

  lemma {:induction false} AppendShape(f: Forest, g: Forest)
    requires Distinct(f) && Distinct(g) && Nodes(f) !! Nodes(g)
    ensures var h := Append(f, g);
      && Distinct(h) && Nodes(h) == Nodes(f) + Nodes(g) && Roots(h) == Roots(f) + Roots(g)
      && (forall x :: x in Nodes(f) ==> KidsOf(h, x) == KidsOf(f, x))
      && (forall x :: x in Nodes(g) ==> KidsOf(h, x) == KidsOf(g, x))
  {
    AppendNodes(f, g);
    forall x | x in Nodes(f) + Nodes(g)
      ensures KidsOf(Append(f, g), x) == KidsOf(if x in Nodes(f) then f else g, x)
    {
      AppendKids(f, g, x);
    }
  }

  lemma {:induction false} AppendNodes(f: Forest, g: Forest)
    requires Distinct(f) && Distinct(g) && Nodes(f) !! Nodes(g)
    ensures var h := Append(f, g);
      Distinct(h) && Nodes(h) == Nodes(f) + Nodes(g) && Roots(h) == Roots(f) + Roots(g)
  {
    if f.Cons? {
      AppendNodes(f.rest, g);
      assert [f.root] + (Roots(f.rest) + Roots(g)) == [f.root] + Roots(f.rest) + Roots(g);
    }
  }

  lemma {:induction false} AppendKids(f: Forest, g: Forest, x: Node)
    requires Distinct(f) && Nodes(f) !! Nodes(g) && x in Nodes(f) + Nodes(g)
    ensures KidsOf(Append(f, g), x) == KidsOf(if x in Nodes(f) then f else g, x)
  {
    if f.Cons? && x !in {f.root} + Nodes(f.kids) {
      AppendKids(f.rest, g, x);
    }
  }

  lemma {:induction false} AppendParents(f: Forest, g: Forest, x: Node, up: Option<Node>)
    requires Distinct(f) && Distinct(g) && Nodes(f) !! Nodes(g) && x in Nodes(f) + Nodes(g)
    ensures ParentUnder(Append(f, g), x, up) == ParentUnder(if x in Nodes(f) then f else g, x, up)
  {
    if f.Cons? && x !in {f.root} + Nodes(f.kids) {
      AppendParents(f.rest, g, x, up);
    }
  }

  function Filter(s: seq<Node>, id: nat, take: bool): seq<Node> {
    if s == [] then []
    else (if (s[0].parentDId == id) == take then [s[0]] else []) + Filter(s[1..], id, take)
  }

  lemma {:induction false} SelectShape(f: Forest, id: nat, take: bool)
    requires Distinct(f)
    ensures var g := Select(f, id, take);
      && Distinct(g) && Nodes(g) <= Nodes(f) && Roots(g) == Filter(Roots(f), id, take)
      && (forall x :: x in Nodes(g) ==> KidsOf(g, x) == KidsOf(f, x))
  {
    if f.Cons? {
      SelectShape(f.rest, id, take);
      assert Roots(f)[1..] == Roots(f.rest);
    }
  }

  lemma {:induction false} SelectSplits(f: Forest, id: nat)
    requires Distinct(f)
    ensures Nodes(Select(f, id, true)) + Nodes(Select(f, id, false)) == Nodes(f)
    ensures Nodes(Select(f, id, true)) !! Nodes(Select(f, id, false))
  {
    if f.Cons? {
      SelectSplits(f.rest, id);
      SelectShape(f.rest, id, true);
      SelectShape(f.rest, id, false);
    }
  }

  lemma {:induction false} SelectParents(f: Forest, id: nat, take: bool, x: Node, up: Option<Node>)
    requires Distinct(f) && x in Nodes(Select(f, id, take))
    ensures x in Nodes(f) && ParentUnder(Select(f, id, take), x, up) == ParentUnder(f, x, up)
  {
    SelectShape(f, id, take);
    SelectShape(f.rest, id, take);
    if x !in {f.root} + Nodes(f.kids) {
      SelectParents(f.rest, id, take, x, up);
    }
  }

  lemma {:induction false} GraftNodes(f: Forest, p: Node, t: Forest)
    requires Distinct(f) && Distinct(t) && Nodes(f) !! Nodes(t) && p in Nodes(f)
    ensures var h := Graft(f, p, t);
      Distinct(h) && Nodes(h) == Nodes(f) + Nodes(t) && Roots(h) == Roots(f)
  {
    if p == f.root {
      AppendShape(f.kids, t);
    } else if p in Nodes(f.kids) {
      GraftNodes(f.kids, p, t);
    } else {
      GraftNodes(f.rest, p, t);
    }
  }

  lemma {:induction false} GraftKids(f: Forest, p: Node, t: Forest, x: Node)
    requires Distinct(f) && Distinct(t) && Nodes(f) !! Nodes(t) && p in Nodes(f) && x in Nodes(f) + Nodes(t)
    ensures KidsOf(Graft(f, p, t), x)
         == if x in Nodes(f) then KidsOf(f, x) + (if x == p then Roots(t) else []) else KidsOf(t, x)
  {
    if p == f.root {
      AppendShape(f.kids, t);
    } else if p in Nodes(f.kids) {
      GraftNodes(f.kids, p, t);
      if x in Nodes(f.kids) + Nodes(t) { GraftKids(f.kids, p, t, x); }
    } else {
      if x in Nodes(f.rest) + Nodes(t) { GraftKids(f.rest, p, t, x); }
    }
  }

  lemma {:induction false} GraftParents(f: Forest, p: Node, t: Forest, x: Node, up: Option<Node>)
    requires Distinct(f) && Distinct(t) && Nodes(f) !! Nodes(t) && p in Nodes(f) && x in Nodes(f) + Nodes(t)
    ensures ParentUnder(Graft(f, p, t), x, up)
         == if x in Nodes(f) then ParentUnder(f, x, up) else ParentUnder(t, x, Some(p))
  {
    if p == f.root {
      AppendShape(f.kids, t);
      if x in Nodes(f.kids) + Nodes(t) { AppendParents(f.kids, t, x, Some(p)); }
    } else if p in Nodes(f.kids) {
      GraftNodes(f.kids, p, t);
      if x in Nodes(f.kids) + Nodes(t) { GraftParents(f.kids, p, t, x, Some(f.root)); }
    } else {
      GraftNodes(f.rest, p, t);
      if x in Nodes(f.rest) + Nodes(t) { GraftParents(f.rest, p, t, x, up); }
    }
  }
}
