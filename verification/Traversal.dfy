/** Positions in the preorder of a forest: what a depth-first walk has still to visit. */
module Traversal {
  import opened Common
  import opened Forest

  /** The preorder from x on. */
  ghost function From(f: Forest, x: Node): (s: seq<Node>)
    ensures x in Nodes(f) ==> s != []
  {
    if f.Nil? then []
    else if x == f.root then Preorder(f)
    else if x in Nodes(f.kids) then From(f.kids, x) + Preorder(f.rest)
    else From(f.rest, x)
  }

  /** The preorder after x and everything below it. */
  ghost function Skip(f: Forest, x: Node): seq<Node> {
    if f.Nil? then []
    else if x == f.root then Preorder(f.rest)
    else if x in Nodes(f.kids) then Skip(f.kids, x) + Preorder(f.rest)
    else Skip(f.rest, x)
  }

  /** The preorder before x. */
  ghost function Before(f: Forest, x: Node): seq<Node> {
    if f.Nil? || x == f.root then []
    else if x in Nodes(f.kids) then [f.root] + Before(f.kids, x)
    else [f.root] + Preorder(f.kids) + Before(f.rest, x)
  }

  lemma {:induction false} FromIsSuffix(f: Forest, x: Node)
    requires Distinct(f) && x in Nodes(f)
    ensures Preorder(f) == Before(f, x) + From(f, x)
    ensures From(f, x) != [] && From(f, x)[0] == x
  {
    if x == f.root {
    } else if x in Nodes(f.kids) {
      FromIsSuffix(f.kids, x);
      Parts([f.root], Before(f.kids, x), From(f.kids, x), Preorder(f.rest));
    } else {
      FromIsSuffix(f.rest, x);
      Parts([f.root] + Preorder(f.kids), Before(f.rest, x), From(f.rest, x), []);
    }
  }

  lemma {:induction false} Parts(a: seq<Node>, b: seq<Node>, c: seq<Node>, d: seq<Node>)
    ensures a + (b + c) + d == (a + b) + (c + d) && c + [] == c
  {
  }

  /** After x comes its first child, or whatever follows x's (empty) tree. */
  lemma {:induction false} AfterNode(f: Forest, x: Node)
    requires Distinct(f) && x in Nodes(f)
    ensures From(f, x) == [x] + if KidsOf(f, x) == [] then Skip(f, x) else From(f, KidsOf(f, x)[0])
  {
    if x == f.root {
      if f.kids.Cons? {
        assert Preorder(f) == [x] + (Preorder(f.kids) + Preorder(f.rest));
      } else {
        assert Preorder(f) == [x] + Preorder(f.rest);
      }
    } else if x in Nodes(f.kids) {
      AfterNode(f.kids, x);
      KidsAreNodes(f.kids, x);
      FromKid(f, f.kids, x);
    } else {
      AfterNode(f.rest, x);
      KidsAreNodes(f.rest, x);
    }
  }

  lemma {:induction false} FromKid(f: Forest, k: Forest, x: Node)
    requires f.Cons? && k == f.kids && Distinct(f) && x in Nodes(k)
    requires From(k, x) == [x] + if KidsOf(k, x) == [] then Skip(k, x) else From(k, KidsOf(k, x)[0])
    requires KidsOf(k, x) != [] ==> KidsOf(k, x)[0] in Nodes(k)
    ensures From(f, x) == [x] + if KidsOf(f, x) == [] then Skip(f, x) else From(f, KidsOf(f, x)[0])
  {
    assert KidsOf(f, x) == KidsOf(k, x);
    var more := if KidsOf(k, x) == [] then Skip(k, x) else From(k, KidsOf(k, x)[0]);
    assert ([x] + more) + Preorder(f.rest) == [x] + (more + Preorder(f.rest));
  }

  /** After the tree of a root comes the next root. */
  lemma {:induction false} AfterRoot(f: Forest, i: nat)
    requires Distinct(f) && i < |Roots(f)|
    ensures Skip(f, Roots(f)[i]) == if i + 1 < |Roots(f)| then From(f, Roots(f)[i + 1]) else []
  {
    RootsAreNodes(f.rest);
    if i == 0 {
      if f.rest.Cons? {
        assert Roots(f)[1] == f.rest.root;
      }
    } else {
      assert Roots(f)[i] == Roots(f.rest)[i - 1];
      AfterRoot(f.rest, i - 1);
    }
  }

  /** After the tree of a child comes the next child, and after the last child's tree whatever
      follows the parent's tree. */
  lemma {:induction false} AfterKid(f: Forest, p: Node, i: nat)
    requires Distinct(f) && p in Nodes(f) && i < |KidsOf(f, p)|
    ensures var kids := KidsOf(f, p);
      Skip(f, kids[i]) == if i + 1 < |kids| then From(f, kids[i + 1]) else Skip(f, p)
  {
    KidsAreNodes(f, p);
    if p == f.root {
      RootsAreNodes(f.kids);
      AfterRoot(f.kids, i);
    } else if p in Nodes(f.kids) {
      KidsAreNodes(f.kids, p);
      AfterKid(f.kids, p, i);
    } else {
      KidsAreNodes(f.rest, p);
      AfterKid(f.rest, p, i);
    }
  }
}
