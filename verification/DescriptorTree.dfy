/** The linked descriptor nodes (src/libpst.c): recording descriptors that may arrive before
    their parents, and walking the result. */
module DescriptorTree {
  import opened Common
  import opened Forest
  import opened RecordOrder
  import opened Traversal

  /** The nodes of a list are chained in order, between head and tail, below `up`. */
  ghost predicate Linked(list: seq<Node>, up: Node?, head: Node?, tail: Node?)
    reads list`parent, list`prev, list`next
  {
    && head == (if list == [] then null else list[0])
    && tail == (if list == [] then null else list[|list| - 1])
    && forall i :: 0 <= i < |list| ==> ChainedAt(list, up, i)
  }

  ghost predicate ChainedAt(list: seq<Node>, up: Node?, i: nat)
    requires i < |list|
    reads {list[i]}`parent, {list[i]}`prev, {list[i]}`next
  {
    && list[i].parent == up
    && list[i].prev == (if i == 0 then null else list[i - 1])
    && list[i].next == (if i == |list| - 1 then null else list[i + 1])
  }

  /** Below node x hangs the given list of inner nodes, and its length is recorded. */
  ghost predicate KidsLinkedAt(x: Node, kids: seq<Node>, inner: set<Node>)
    reads x`child, x`childTail, x`noChild, inner`parent, inner`prev, inner`next
  {
    SetOf(kids) <= inner && Linked(kids, x, x.child, x.childTail) && x.noChild == |kids|
  }

  /** Below every node of f hangs the list that f says. The links of the roots themselves are
      not looked at. */
  ghost predicate KidsLinked(f: Forest)
    reads Nodes(f)`child, Nodes(f)`childTail, Nodes(f)`noChild
    reads Inner(f)`parent, Inner(f)`prev, Inner(f)`next
  {
    forall x :: x in Nodes(f) ==> KidsLinkedAt(x, KidsOf(f, x), Inner(f))
  }

  /** add_descriptor_to_list: returns the list's new head and tail. */
  method AddDescriptorToList(node: Node, head: Node?, tail: Node?, ghost list: seq<Node>)
    returns (head': Node?, tail': Node?)
    requires Linked(list, node.parent, head, tail) && node !in list && NoRepeats(list)
    modifies node`prev, node`next, (if tail == null then {} else {tail})`next
    ensures Linked(list + [node], node.parent, head', tail')
  {
    head' := head;
    if tail != null { tail.next := node; }
    if head' == null { head' := node; }
    node.prev := tail;
    node.next := null;
    tail' := node;
    forall i | 0 <= i < |list + [node]| ensures ChainedAt(list + [node], node.parent, i) {
      if i < |list| { assert old(ChainedAt(list, node.parent, i)); }
    }
  }

  class PstFile {
    var dHead: Node?
    var dTail: Node?
    ghost var forest: Forest
    ghost var nodes: set<Node>

    constructor ()
      ensures Valid() && forest == Nil
    {
      dHead, dTail, forest, nodes := null, null, Nil, {};
    }

    /** The pointers reachable from here form exactly forest f. */
    ghost predicate Holds(f: Forest)
      requires SetOf(Roots(f)) <= Nodes(f)
      reads this`dHead, this`dTail, Nodes(f)
    {
      Distinct(f) && Linked(Roots(f), null, dHead, dTail) && KidsLinked(f)
    }

    ghost predicate Valid()
      reads this, nodes
    {
      nodes == Nodes(forest) && SetOf(Roots(forest)) <= nodes && Holds(forest)
    }

    /** Joins the neighbours of the k-th top-level node, whose own links may have changed. */
    method Unlink(nn: Node?, pp: Node?, ghost top: seq<Node>, ghost k: nat)
      requires k < |top| && NoRepeats(top)
      requires dHead == top[0] && dTail == top[|top| - 1]
      requires forall i :: 0 <= i < |top| && i != k ==> ChainedAt(top, null, i)
      requires pp == (if k == 0 then null else top[k - 1])
      requires nn == (if k == |top| - 1 then null else top[k + 1])
      modifies this`dHead, this`dTail
      modifies (if pp == null then {} else {pp})`next, (if nn == null then {} else {nn})`prev
      ensures Linked(top[..k] + top[k + 1..], null, dHead, dTail)
    {
      if pp != null { pp.next := nn; } else { dHead := nn; }
      if nn != null { nn.prev := pp; } else { dTail := pp; }
      ghost var list := top[..k] + top[k + 1..];
      forall i | 0 <= i < |list| ensures ChainedAt(list, null, i) {
        assert old(ChainedAt(top, null, if i < k then i else i + 1));
      }
    }

    /** Moves the k-th node of the top-level list to the end of the list below `node`. */
    method Adopt(node: Node, n: Node, ghost top: seq<Node>, ghost k: nat, ghost mine: seq<Node>)
      requires k < |top| && n == top[k] && NoRepeats(top) && NoRepeats(mine) && node !in top && node !in mine
      requires Linked(top, null, dHead, dTail)
      requires Linked(mine, node, node.child, node.childTail)
      modifies this`dHead, this`dTail, node`child, node`childTail, node`noChild, n`parent
      modifies SetOf(top)`prev, (SetOf(top) + SetOf(mine))`next
      ensures Linked(top[..k] + top[k + 1..], null, dHead, dTail)
      ensures Linked(mine + [n], node, node.child, node.childTail)
      ensures node.noChild == old(node.noChild) + 1
      ensures NoRepeats(top[..k] + top[k + 1..]) && NoRepeats(mine + [n])
    {
      forall i, j | 0 <= i < |mine| && 0 <= j < |top| ensures mine[i] != top[j] {
        assert ChainedAt(mine, node, i) && ChainedAt(top, null, j);
      }
      assert ChainedAt(top, null, k);
      var nn, pp := n.next, n.prev;
      node.noChild := node.noChild + 1;
      n.parent := node;
      node.child, node.childTail := AddDescriptorToList(n, node.child, node.childTail, mine);
      Unlink(nn, pp, top, k);
    }

    /** One round of the collecting loop: the k-th top-level node is adopted or passed over. */
    method CollectOne(node: Node, n: Node, ghost top: seq<Node>, ghost k: nat, ghost mine: seq<Node>)
      returns (next: Node?, ghost top': seq<Node>, ghost k': nat, ghost mine': seq<Node>)
      requires k < |top| && n == top[k] && NoRepeats(top) && NoRepeats(mine) && node !in top && node !in mine
      requires Linked(top, null, dHead, dTail)
      requires Linked(mine, node, node.child, node.childTail) && node.noChild == |mine|
      modifies this`dHead, this`dTail, node`child, node`childTail, node`noChild, n`parent
      modifies SetOf(top)`prev, (SetOf(top) + SetOf(mine))`next
      ensures Linked(top', null, dHead, dTail)
      ensures Linked(mine', node, node.child, node.childTail) && node.noChild == |mine'|
      ensures (top', k', mine') ==
        if n.parentDId == node.dId then (top[..k] + top[k + 1..], k, mine + [n]) else (top, k + 1, mine)
      ensures next == (if k' < |top'| then top'[k'] else null)
      ensures NoRepeats(top') && NoRepeats(mine')
    {
      assert ChainedAt(top, null, k);
      next, top', k', mine' := n.next, top, k + 1, mine;
      if n.parentDId == node.dId {
        Adopt(node, n, top, k, mine);
        top', k', mine' := top[..k] + top[k + 1..], k, mine + [n];
      }
    }

    /** The loop that takes the orphans waiting for `node` out of the top-level list. */
    method CollectOrphans(node: Node, ghost list: seq<Node>)
      requires NoRepeats(list) && node !in SetOf(list)
      requires Linked(list, null, dHead, dTail)
      requires Linked([], node, node.child, node.childTail) && node.noChild == 0
      modifies this`dHead, this`dTail, node`child, node`childTail, node`noChild
      modifies SetOf(list)`prev, SetOf(list)`next, SetOf(list)`parent
      ensures Linked(Filter(list, node.dId, false), null, dHead, dTail)
      ensures Linked(Filter(list, node.dId, true), node, node.child, node.childTail)
      ensures node.noChild == |Filter(list, node.dId, true)|
    {
      var n := dHead;
      ghost var top, k: nat, mine: seq<Node> := list, 0, [];
      while n != null
        invariant k <= |top| && n == (if k < |top| then top[k] else null)
        invariant NoRepeats(top) && NoRepeats(mine) && SetOf(top) <= SetOf(list) && SetOf(mine) <= SetOf(list)
        invariant Linked(top, null, dHead, dTail)
        invariant Linked(mine, node, node.child, node.childTail) && node.noChild == |mine|
        invariant Collected(top, k, mine, node.dId) == Collected(list, 0, [], node.dId)
        decreases |top| - k
      {
        StepStaysInside(top, k, mine, list, node);
        n, top, k, mine := CollectOne(node, n, top, k, mine);
      }
      CollectedIsFilter(list, 0, [], node.dId);
    }

    method PushTop(node: Node, ghost others: Forest, ghost top: set<Node>)
      requires SetOf(Roots(others)) <= Nodes(others) && Holds(others)
      requires top == SetOf(Roots(others)) && Nodes(others) <= nodes && node !in nodes && node.parent == null
      modifies this`dHead, this`dTail, node`prev, node`next, top`next
      ensures Linked(Roots(others) + [node], null, dHead, dTail)
      ensures KidsLinked(others)
    {
      RootsNoRepeats(others);
      RootsAreNodes(others);
      dHead, dTail := AddDescriptorToList(node, dHead, dTail, Roots(others));
    }

    /** Hooks the new node into the top-level list. */
    method AddTop(node: Node, ghost others: Forest, ghost mine: Forest)
      requires SetOf(Roots(others)) <= Nodes(others) && Holds(others) && NewTree(node, mine)
      requires nodes == Nodes(others) + Nodes(mine) && Nodes(others) !! Nodes(mine) && node !in nodes
      requires node.parent == null
      modifies this`dHead, this`dTail, this`forest, this`nodes, node`prev, node`next, nodes`next
      ensures Valid() && forest == Append(others, Cons(node, mine, Nil)) && nodes == old(nodes) + {node}
    {
      PushTop(node, others, SetOf(Roots(others)));
      assert NewTree(node, mine);
      SettleTop(node, others, mine);
    }

    ghost method SettleTop(node: Node, others: Forest, mine: Forest)
      requires Distinct(others) && KidsLinked(others) && NewTree(node, mine)
      requires Linked(Roots(others) + [node], null, dHead, dTail)
      requires nodes == Nodes(others) + Nodes(mine) && Nodes(others) !! Nodes(mine) && node !in nodes
      modifies this`forest, this`nodes
      ensures Valid() && forest == Append(others, Cons(node, mine, Nil)) && nodes == old(nodes) + {node}
    {
      TreeLinks(node, mine);
      AppendLinks(others, Cons(node, mine, Nil));
      Settle(Append(others, Cons(node, mine, Nil)), nodes + {node});
    }

    method PushKid(node: Node, parent: Node, ghost others: Forest, ghost kids: set<Node>)
      requires SetOf(Roots(others)) <= Nodes(others) && Holds(others)
      requires parent in Nodes(others) && kids == SetOf(KidsOf(others, parent))
      requires Nodes(others) <= nodes && node !in nodes
      modifies parent`child, parent`childTail, parent`noChild, node`parent, node`prev, node`next, kids`next
      ensures Linked(Roots(others), null, dHead, dTail)
      ensures KidsLinkedBut(others, parent)
      ensures Linked(KidsOf(others, parent) + [node], parent, parent.child, parent.childTail)
      ensures parent.noChild == |KidsOf(others, parent)| + 1
    {
      KidsNoRepeats(others, parent);
      KidsAreNodes(others, parent);
      KidsAreInner(others, parent);
      RootsAreNodes(others);
      LinkKid(node, parent, others, kids);
      forall x | x in Nodes(others) && x != parent
        ensures KidsLinkedAt(x, KidsOf(others, x), Inner(others))
      {
        ghost var list := KidsOf(others, x);
        assert old(KidsLinkedAt(x, list, Inner(others)));
        KidsDisjoint(others, parent, x);
        NotAmong(list, Inner(others), node);
        forall i | 0 <= i < |list| ensures ChainedAt(list, x, i) {
          assert old(ChainedAt(list, x, i)) && list[i] !in kids && list[i] != node;
        }
      }
    }

    /** Puts the node at the end of the list below its parent. */
    static method HookKid(node: Node, parent: Node, ghost list: seq<Node>, ghost kids: set<Node>)
      requires Linked(list, parent, parent.child, parent.childTail) && parent.noChild == |list|
      requires NoRepeats(list) && node !in list && node != parent && kids == SetOf(list)
      modifies parent`child, parent`childTail, parent`noChild, node`parent, node`prev, node`next, kids`next
      ensures Linked(list + [node], parent, parent.child, parent.childTail)
      ensures parent.noChild == |list| + 1
    {
      parent.noChild := parent.noChild + 1;
      node.parent := parent;
      parent.child, parent.childTail := AddDescriptorToList(node, parent.child, parent.childTail, list);
    }

    method LinkKid(node: Node, parent: Node, ghost others: Forest, ghost kids: set<Node>)
      requires SetOf(Roots(others)) <= Nodes(others) && Holds(others)
      requires parent in Nodes(others) && kids == SetOf(KidsOf(others, parent)) && kids !! SetOf(Roots(others))
      requires NoRepeats(KidsOf(others, parent)) && node !in KidsOf(others, parent) && node != parent
      requires node !in Roots(others)
      modifies parent`child, parent`childTail, parent`noChild, node`parent, node`prev, node`next, kids`next
      ensures Linked(KidsOf(others, parent) + [node], parent, parent.child, parent.childTail)
      ensures parent.noChild == |KidsOf(others, parent)| + 1
      ensures Linked(Roots(others), null, dHead, dTail)
    {
      ghost var top := Roots(others);
      assert KidsLinkedAt(parent, KidsOf(others, parent), Inner(others));
      HookKid(node, parent, KidsOf(others, parent), kids);
      forall i | 0 <= i < |top| ensures ChainedAt(top, null, i) {
        assert old(ChainedAt(top, null, i)) && top[i] in SetOf(top);
      }
    }

    /** Hooks the new node below its parent. */
    method AddUnder(node: Node, parent: Node, ghost others: Forest, ghost mine: Forest)
      requires SetOf(Roots(others)) <= Nodes(others) && Holds(others) && NewTree(node, mine)
      requires nodes == Nodes(others) + Nodes(mine) && Nodes(others) !! Nodes(mine) && node !in nodes
      requires parent in Nodes(others)
      modifies parent`child, parent`childTail, parent`noChild, node`parent, node`prev, node`next, nodes`next
      modifies this`forest, this`nodes
      ensures Valid() && forest == Graft(others, parent, Cons(node, mine, Nil)) && nodes == old(nodes) + {node}
    {
      KidsAreInner(others, parent);
      PushKid(node, parent, others, SetOf(KidsOf(others, parent)));
      assert NewTree(node, mine);
      SettleUnder(node, parent, others, mine);
    }

    ghost method SettleUnder(node: Node, parent: Node, others: Forest, mine: Forest)
      requires Distinct(others) && Linked(Roots(others), null, dHead, dTail) && NewTree(node, mine)
      requires parent in Nodes(others) && KidsLinkedBut(others, parent)
      requires Linked(KidsOf(others, parent) + [node], parent, parent.child, parent.childTail)
      requires parent.noChild == |KidsOf(others, parent)| + 1
      requires nodes == Nodes(others) + Nodes(mine) && Nodes(others) !! Nodes(mine) && node !in nodes
      modifies this`forest, this`nodes
      ensures Valid() && forest == Graft(others, parent, Cons(node, mine, Nil)) && nodes == old(nodes) + {node}
    {
      TreeLinks(node, mine);
      GraftLinks(others, parent, node, Cons(node, mine, Nil));
      Settle(Graft(others, parent, Cons(node, mine, Nil)), nodes + {node});
    }

    ghost method Settle(f: Forest, all: set<Node>)
      requires SetOf(Roots(f)) <= Nodes(f) == all && Holds(f)
      modifies this`forest, this`nodes
      ensures Valid() && forest == f && nodes == all
    {
      forest, nodes := f, all;
    }

    /** pst_getDptr: the first node with the id, depth first. */
    method GetDptr(dId: nat, ghost f: Forest) returns (ptr: Node?)
      requires SetOf(Roots(f)) <= Nodes(f) && Holds(f)
      ensures Holds(f)
      ensures match FirstWithId(Preorder(f), dId)
        case Some(p) => ptr == p
        case None => ptr == null
    {
      ptr := dHead;
      ghost var left := Preorder(f);
      Start(f);
      while ptr != null && ptr.dId != dId
        invariant Holds(f)
        invariant ptr == null ==> left == []
        invariant ptr != null ==> ptr in Nodes(f) && left == From(f, ptr)
        invariant FirstWithId(Preorder(f), dId) == FirstWithId(left, dId)
        decreases |left|
      {
        AfterNode(f, ptr);
        FirstKid(ptr, f);
        left := left[1..];
        if ptr.child != null {
          ptr := ptr.child;
        } else {
          ptr := Ascend(ptr, f);
        }
      }
      if ptr != null { AfterNode(f, ptr); }
    }

    lemma {:induction false} FirstKid(d: Node, f: Forest)
      requires SetOf(Roots(f)) <= Nodes(f) && Holds(f) && d in Nodes(f)
      ensures d.child == null ==> KidsOf(f, d) == []
      ensures d.child != null ==> d.child in Nodes(f) && KidsOf(f, d) != [] && d.child == KidsOf(f, d)[0]
    {
      assert KidsLinkedAt(d, KidsOf(f, d), Inner(f));
      KidsAreNodes(f, d);
    }

    /** From a node without children: up as long as there is no next sibling, then sideways. */
    method Ascend(d: Node, ghost f: Forest) returns (r: Node?)
      requires SetOf(Roots(f)) <= Nodes(f) && Holds(f) && d in Nodes(f)
      ensures Holds(f) && (r == null ==> Skip(f, d) == [])
      ensures r != null ==> r in Nodes(f) && Skip(f, d) == From(f, r)
    {
      var ptr := d;
      while ptr.next == null && ptr.parent != null
        invariant Holds(f) && ptr in Nodes(f) && Skip(f, ptr) == Skip(f, d)
        decreases Depth(f, ptr)
      {
        Sideways(ptr, f);
        ptr := ptr.parent;
      }
      Sideways(ptr, f);
      r := ptr.next;
    }

    /** What the pointers of a node say about its place in the forest. */
    lemma {:induction false} Sideways(d: Node, f: Forest)
      requires SetOf(Roots(f)) <= Nodes(f) && Holds(f) && d in Nodes(f)
      ensures d.next != null ==> d.next in Nodes(f) && Skip(f, d) == From(f, d.next)
      ensures d.next == null && d.parent == null ==> Skip(f, d) == []
      ensures d.next == null && d.parent != null ==>
        d.parent in Nodes(f) && Skip(f, d) == Skip(f, d.parent) && Depth(f, d) == Depth(f, d.parent) + 1
    {
      Located(f, d);
      if Parent(f, d).Some? {
        var p := Parent(f, d).value;
        var kids := KidsOf(f, p);
        assert KidsLinkedAt(p, kids, Inner(f));
        KidsAreNodes(f, p);
        var i :| 0 <= i < |kids| && kids[i] == d;
        assert ChainedAt(kids, p, i);
        AfterKid(f, p, i);
      } else {
        var roots := Roots(f);
        RootsAreNodes(f);
        var i :| 0 <= i < |roots| && roots[i] == d;
        assert ChainedAt(roots, null, i);
        AfterRoot(f, i);
      }
    }

    lemma {:induction false} Start(f: Forest)
      requires SetOf(Roots(f)) <= Nodes(f) && Holds(f)
      ensures dHead == null ==> Preorder(f) == []
      ensures dHead != null ==> dHead in Nodes(f) && From(f, dHead) == Preorder(f)
    {
    }

    /** record_descriptor: puts a new node into the forest. */
    method RecordDescriptor(node: Node)
      requires Valid() && node !in nodes
      modifies this, node, nodes
      ensures Valid() && forest == Record(old(forest), node) && nodes == old(nodes) + {node}
    {
      Clear(node);
      ghost var mine, others := Select(forest, node.dId, true), Select(forest, node.dId, false);
      Prepare(node);
      if node.parentDId == 0 {
        AddTop(node, others, mine);
      } else if node.parentDId == node.dId {
        AddTop(node, others, mine);
      } else {
        AddBelowParent(node, others, mine);
      }
    }

    static lemma {:induction false} OneMore(before: seq<Node>, ns: seq<Node>, i: nat)
      requires i < |ns| && NoRepeats(before + ns)
      ensures RecordAll(before + ns[..i + 1]) == Record(RecordAll(before + ns[..i]), ns[i])
      ensures SetOf(before + ns[..i + 1]) == SetOf(before + ns[..i]) + {ns[i]}
      ensures ns[i] !in SetOf(before + ns[..i])
    {
      var all := before + ns[..i];
      assert before + ns[..i + 1] == all + [ns[i]];
      SetOfAppend(all, [ns[i]]);
      assert SetOf([ns[i]]) == {ns[i]};
      assert forall j :: 0 <= j < |all| ==> all[j] == (before + ns)[j];
      assert (before + ns)[|before| + i] == ns[i];
    }

    /** Recording a list of new nodes into a forest that already holds earlier ones, as the leaf
        loop of pst_build_desc_ptr does. */
    method RecordList(ns: seq<Node>, ghost before: seq<Node>)
      requires Valid() && forest == RecordAll(before) && nodes == SetOf(before) && NoRepeats(before + ns)
      modifies this, ns, nodes
      ensures Valid() && forest == RecordAll(before + ns) && nodes == SetOf(before + ns)
      ensures GoodIds(before + ns) ==>
        ((forall x :: x in before + ns ==> UnderItsParent(x, before + ns)) <==> !HasCycle(before + ns))
    {
      RecordEach(ns, before);
      if GoodIds(before + ns) { ParentsAreRight(before + ns); }
    }

    method RecordEach(ns: seq<Node>, ghost before: seq<Node>)
      requires Valid() && forest == RecordAll(before) && nodes == SetOf(before) && NoRepeats(before + ns)
      modifies this, ns, nodes
      ensures Valid() && forest == RecordAll(before + ns) && nodes == SetOf(before + ns)
    {
      var i := 0;
      assert before + ns[..0] == before;
      while i < |ns|
        invariant 0 <= i <= |ns|
        invariant Valid() && forest == RecordAll(before + ns[..i]) && nodes == SetOf(before + ns[..i])
        invariant nodes <= old(nodes) + SetOf(ns)
      {
        RecordOne(ns[i], before, ns, i);
        i := i + 1;
      }
      assert before + ns[..i] == before + ns;
    }

    method RecordOne(node: Node, ghost before: seq<Node>, ghost ns: seq<Node>, ghost i: nat)
      requires i < |ns| && node == ns[i] && NoRepeats(before + ns)
      requires Valid() && forest == RecordAll(before + ns[..i]) && nodes == SetOf(before + ns[..i])
      modifies this, node, nodes
      ensures Valid() && forest == RecordAll(before + ns[..i + 1]) && nodes == SetOf(before + ns[..i + 1])
      ensures nodes == old(nodes) + {node}
    {
      OneMore(before, ns, i);
      RecordDescriptor(node);
    }

    /** The parent pointer says what the forest says. */
    lemma {:induction false} ParentPointer(x: Node)
      requires Valid() && x in nodes
      ensures match Parent(forest, x)
        case Some(p) => x.parent == p
        case None => x.parent == null
    {
      Located(forest, x);
      match Parent(forest, x)
      case Some(p) =>
        assert KidsLinkedAt(p, KidsOf(forest, p), Inner(forest));
        var i :| 0 <= i < |KidsOf(forest, p)| && KidsOf(forest, p)[i] == x;
        assert ChainedAt(KidsOf(forest, p), p, i);
      case None =>
        var i :| 0 <= i < |Roots(forest)| && Roots(forest)[i] == x;
        assert ChainedAt(Roots(forest), null, i);
    }

    /** Whatever the order of recording: every parent pointer leads to the node named, and is
        null only if none of that name was recorded, exactly when there is no circle. */
    lemma {:induction false} ParentsAreRight(ns: seq<Node>)
      requires Valid() && forest == RecordAll(ns) && nodes == SetOf(ns) && NoRepeats(ns) && GoodIds(ns)
      ensures (forall x :: x in ns ==> UnderItsParent(x, ns)) <==> !HasCycle(ns)
    {
      PlacedIffAcyclic(ns);
      forall x | x in ns ensures UnderItsParent(x, ns) <==> PlacedAt(forest, ns, x) {
        SameVerdict(ns, x);
      }
    }

    lemma {:induction false} SameVerdict(ns: seq<Node>, x: Node)
      requires Valid() && x in nodes
      ensures UnderItsParent(x, ns) <==> PlacedAt(forest, ns, x)
    {
      ParentPointer(x);
    }

    /** pst_getTopOfFolders: null without a message store, which may name the top of folders;
        otherwise the node with its id, or a new one that takes in the orphans waiting for it. */
    method GetTopOfFolders(messageStore: Option<Option<nat>>) returns (topnode: Node?)
      requires Valid()
      modifies this, nodes
      ensures Valid() && (topnode == null <==> messageStore.None?)
      ensures topnode == null ==> forest == old(forest)
      ensures topnode != null ==> topnode in nodes && topnode.dId == TopId(messageStore.value)
      ensures messageStore == Some(None) ==> topnode != null && topnode.dId == 0x2142
      ensures topnode != null ==>
        match FirstWithId(Preorder(old(forest)), TopId(messageStore.value))
        case Some(p) => topnode == p && forest == old(forest)
        case None => fresh(topnode) && topnode.parentDId == 0 && forest == Record(old(forest), topnode)
    {
      if messageStore.None? {
        return null;
      }
      var topId := TopId(messageStore.value);
      FoundIsNode(forest, topId);
      topnode := GetDptr(topId, forest);
      if topnode == null {
        topnode := new Node(topId, 0);
        RecordDescriptor(topnode);
      }
    }

    /** The search for the parent, and what follows it. */
    method AddBelowParent(node: Node, ghost others: Forest, ghost mine: Forest)
      requires SetOf(Roots(others)) <= Nodes(others) && Holds(others) && NewTree(node, mine)
      requires nodes == Nodes(others) + Nodes(mine) && Nodes(others) !! Nodes(mine) && node !in nodes
      requires node.parent == null
      modifies this, node, nodes
      ensures Valid() && nodes == old(nodes) + {node}
      ensures forest == match FirstWithId(Preorder(others), node.parentDId)
        case Some(p) => Graft(others, p, Cons(node, mine, Nil))
        case None => Append(others, Cons(node, mine, Nil))
    {
      var parent := FindParent(node, others, mine);
      if parent != null {
        AddUnder(node, parent, others, mine);
      } else {
        AddTop(node, others, mine);
      }
    }

    method FindParent(node: Node, ghost others: Forest, ghost mine: Forest) returns (parent: Node?)
      requires SetOf(Roots(others)) <= Nodes(others) && Holds(others) && NewTree(node, mine)
      requires nodes == Nodes(others) + Nodes(mine) && node !in nodes
      ensures Holds(others) && NewTree(node, mine)
      ensures match FirstWithId(Preorder(others), node.parentDId)
        case Some(p) => parent == p && p in Nodes(others)
        case None => parent == null
    {
      FoundIsNode(others, node.parentDId);
      parent := GetDptr(node.parentDId, others);
    }

    /** The new node's own fields, before anything else is done. */
    method Clear(node: Node)
      requires Valid() && node !in nodes
      modifies node
      ensures Valid()
      ensures node.parent == null && node.child == null && node.childTail == null && node.noChild == 0
    {
      node.parent, node.child, node.childTail, node.noChild := null, null, null, 0;
    }

    /** Collects the orphans waiting for the node. */
    method Prepare(node: Node)
      requires Valid() && node !in nodes
      requires node.child == null && node.childTail == null && node.noChild == 0
      modifies this`dHead, this`dTail, node`child, node`childTail, node`noChild
      modifies nodes`prev, nodes`next, nodes`parent
      ensures var mine, others := Select(forest, node.dId, true), Select(forest, node.dId, false);
        && SetOf(Roots(others)) <= Nodes(others) && Holds(others) && NewTree(node, mine)
        && nodes == Nodes(others) + Nodes(mine) && Nodes(others) !! Nodes(mine)
    {
      TakeOrphans(node, SetOf(Roots(forest)));
      OrphansTaken(node);
    }

    lemma {:induction false} OrphansTaken(node: Node)
      requires Distinct(forest) && KidsLinked(forest) && nodes == Nodes(forest) && node !in nodes
      requires Linked(Filter(Roots(forest), node.dId, false), null, dHead, dTail)
      requires Linked(Filter(Roots(forest), node.dId, true), node, node.child, node.childTail)
      requires node.noChild == |Filter(Roots(forest), node.dId, true)|
      ensures var mine, others := Select(forest, node.dId, true), Select(forest, node.dId, false);
        && SetOf(Roots(others)) <= Nodes(others) && Holds(others) && NewTree(node, mine)
        && nodes == Nodes(others) + Nodes(mine) && Nodes(others) !! Nodes(mine)
    {
      SelectSplits(forest, node.dId);
      SelectKeepsLinks(forest, node.dId, true);
      SelectKeepsLinks(forest, node.dId, false);
    }

    method TakeOrphans(node: Node, ghost top: set<Node>)
      requires Valid() && node !in nodes && top == SetOf(Roots(forest))
      requires node.child == null && node.childTail == null && node.noChild == 0
      modifies this`dHead, this`dTail, node`child, node`childTail, node`noChild
      modifies top`prev, top`next, top`parent
      ensures Linked(Filter(Roots(forest), node.dId, false), null, dHead, dTail)
      ensures Linked(Filter(Roots(forest), node.dId, true), node, node.child, node.childTail)
      ensures node.noChild == |Filter(Roots(forest), node.dId, true)|
      ensures Distinct(forest) && KidsLinked(forest)
    {
      RootsNoRepeats(forest);
      CollectOrphans(node, Roots(forest));
    }

    /** pst_getNextDptr: the node after d, depth first, or null after the last one. */
    method GetNextDptr(d: Node?) returns (r: Node?)
      requires Valid() && (d != null ==> d in nodes)
      ensures Valid() && (d == null ==> r == null)
      ensures d != null && r == null ==> From(forest, d)[1..] == []
      ensures d != null && r != null ==> r in nodes && From(forest, d)[1..] == From(forest, r)
    {
      r := null;
      if d != null {
        AfterNode(forest, d);
        FirstKid(d, forest);
        r := d.child;
        if r == null {
          r := Ascend(d, forest);
        }
      }
    }

    /** Stepping from d_head with pst_getNextDptr until it returns null visits the preorder. */
    method Walk() returns (visited: seq<Node>)
      requires Valid()
      ensures visited == Preorder(forest) && NoRepeats(visited) && SetOf(visited) == nodes
    {
      visited := [];
      var d := dHead;
      ghost var whole := Preorder(forest);
      ghost var left := whole;
      Start(forest);
      while d != null
        invariant Valid() && (d != null ==> d in nodes)
        invariant left == if d == null then [] else From(forest, d)
        invariant visited + left == whole
        decreases |left|
      {
        AfterNode(forest, d);
        Shift(visited, left);
        visited, left := visited + [d], left[1..];
        d := GetNextDptr(d);
      }
      PreorderOnce(forest);
    }
  }

  ghost predicate UnderItsParent(x: Node, ns: seq<Node>)
    reads x`parent
  {
    if x.parent == null then forall y :: y in ns ==> !IsParent(y, x)
    else x.parent in ns && IsParent(x.parent, x)
  }

  /** The id of the top of folders, or the one it has in files that do not name it. */
  function TopId(named: Option<nat>): nat { if named.Some? then named.value else 0x2142 }

  /** All lists are as f says, except the one below p. */
  ghost predicate KidsLinkedBut(f: Forest, p: Node)
    reads Nodes(f)`child, Nodes(f)`childTail, Nodes(f)`noChild
    reads Inner(f)`parent, Inner(f)`prev, Inner(f)`next
  {
    forall x :: x in Nodes(f) && x != p ==> KidsLinkedAt(x, KidsOf(f, x), Inner(f))
  }

  lemma {:induction false} KidsNoRepeats(f: Forest, p: Node)
    requires Distinct(f)
    ensures NoRepeats(KidsOf(f, p))
  {
    if f.Cons? {
      RootsNoRepeats(f.kids);
      KidsNoRepeats(f.kids, p);
      KidsNoRepeats(f.rest, p);
    }
  }

  lemma {:induction false} NotAmong(list: seq<Node>, all: set<Node>, x: Node)
    requires SetOf(list) <= all && x !in all
    ensures forall i :: 0 <= i < |list| ==> list[i] != x
  {
    forall i | 0 <= i < |list| ensures list[i] != x {
      assert list[i] in SetOf(list);
    }
  }

  lemma {:induction false} KidsDisjoint(f: Forest, p: Node, q: Node)
    requires Distinct(f) && p in Nodes(f) && q in Nodes(f) && p != q
    ensures forall j :: 0 <= j < |KidsOf(f, q)| ==> KidsOf(f, q)[j] !in SetOf(KidsOf(f, p))
  {
    forall i, j | 0 <= i < |KidsOf(f, p)| && 0 <= j < |KidsOf(f, q)|
      ensures KidsOf(f, p)[i] != KidsOf(f, q)[j]
    {
      KidsHaveParent(f, p, KidsOf(f, p)[i], None);
      KidsHaveParent(f, q, KidsOf(f, q)[j], None);
    }
  }

  lemma {:induction false} GraftLinks(f: Forest, p: Node, node: Node, tree: Forest)
    requires Distinct(f) && Distinct(tree) && Nodes(f) !! Nodes(tree) && p in Nodes(f)
    requires Roots(tree) == [node] && KidsLinked(tree) && KidsLinkedBut(f, p)
    requires Linked(KidsOf(f, p) + [node], p, p.child, p.childTail) && p.noChild == |KidsOf(f, p)| + 1
    ensures var h := Graft(f, p, tree);
      && KidsLinked(h) && Distinct(h) && Nodes(h) == Nodes(f) + Nodes(tree)
      && Roots(h) == Roots(f) && SetOf(Roots(h)) <= Nodes(h)
  {
    GraftNodes(f, p, tree);
    var h := Graft(f, p, tree);
    RootsAreNodes(h);
    forall x | x in Nodes(h) ensures KidsLinkedAt(x, KidsOf(h, x), Inner(h)) {
      GraftKids(f, p, tree, x);
      KidsAreInner(h, x);
      if x in Nodes(tree) {
        assert KidsLinkedAt(x, KidsOf(tree, x), Inner(tree));
      } else if x != p {
        assert KidsLinkedAt(x, KidsOf(f, x), Inner(f));
        assert KidsOf(f, x) + [] == KidsOf(f, x);
      }
    }
  }

  /** A node that is not hooked in yet, with the orphans it has collected. */
  ghost predicate NewTree(node: Node, mine: Forest)
    reads node`child, node`childTail, node`noChild, Nodes(mine)
  {
    && Distinct(mine) && node !in Nodes(mine) && KidsLinked(mine)
    && KidsLinkedAt(node, Roots(mine), Nodes(mine))
  }

  lemma {:induction false} TreeLinks(node: Node, mine: Forest)
    requires NewTree(node, mine)
    ensures KidsLinked(Cons(node, mine, Nil)) && Distinct(Cons(node, mine, Nil))
    ensures Nodes(Cons(node, mine, Nil)) == Nodes(mine) + {node} && Roots(Cons(node, mine, Nil)) == [node]
  {
    var tree := Cons(node, mine, Nil);
    assert Roots(tree) == [node] + Roots(Nil) == [node];
    assert SetOf([node]) == {node} && Nodes(tree) == {node} + Nodes(mine);
    assert Inner(tree) == Nodes(mine);
    forall x | x in Nodes(tree) ensures KidsLinkedAt(x, KidsOf(tree, x), Inner(tree)) {
      if x != node { assert KidsLinkedAt(x, KidsOf(mine, x), Inner(mine)); }
    }
  }

  lemma {:induction false} AppendLinks(f: Forest, g: Forest)
    requires Distinct(f) && Distinct(g) && Nodes(f) !! Nodes(g) && KidsLinked(f) && KidsLinked(g)
    ensures KidsLinked(Append(f, g)) && Distinct(Append(f, g))
    ensures Nodes(Append(f, g)) == Nodes(f) + Nodes(g) && Roots(Append(f, g)) == Roots(f) + Roots(g)
    ensures SetOf(Roots(Append(f, g))) <= Nodes(Append(f, g))
  {
    RootsAreNodes(Append(f, g));
    AppendShape(f, g);
    var h := Append(f, g);
    forall x | x in Nodes(h) ensures KidsLinkedAt(x, KidsOf(h, x), Inner(h)) {
      KidsAreInner(h, x);
      if x in Nodes(f) {
        assert KidsLinkedAt(x, KidsOf(f, x), Inner(f));
      } else {
        assert KidsLinkedAt(x, KidsOf(g, x), Inner(g));
      }
    }
  }

  lemma {:induction false} FoundIsNode(f: Forest, id: nat)
    ensures var found := FirstWithId(Preorder(f), id);
      found.Some? ==> found.value in Nodes(f) && found.value.dId == id
  {
    FirstWithIdFinds(Preorder(f), id);
    var found := FirstWithId(Preorder(f), id);
    if found.Some? { PreorderHas(f, found.value); }
  }

  lemma {:induction false} Shift(a: seq<Node>, b: seq<Node>)
    requires b != []
    ensures (a + [b[0]]) + b[1..] == a + b
  {
  }

  lemma {:induction false} RootsNoRepeats(f: Forest)
    requires Distinct(f)
    ensures NoRepeats(Roots(f))
  {
    if f.Cons? {
      RootsNoRepeats(f.rest);
      RootsAreNodes(f.rest);
    }
  }

  lemma {:induction false} StepStaysInside(top: seq<Node>, k: nat, mine: seq<Node>, list: seq<Node>, x: Node)
    requires k < |top| && SetOf(top) <= SetOf(list) && SetOf(mine) <= SetOf(list) && x !in SetOf(list)
    ensures SetOf(top[..k] + top[k + 1..]) <= SetOf(list) && SetOf(mine + [top[k]]) <= SetOf(list)
    ensures x !in top && x !in mine
  {
    assert top[k] in SetOf(top);
    assert (x in top ==> x in SetOf(top)) && (x in mine ==> x in SetOf(mine));
  }

  /** What the collecting loop makes of the two lists from position k on. */
  function Collected(top: seq<Node>, k: nat, mine: seq<Node>, id: nat): (seq<Node>, seq<Node>)
    requires k <= |top|
    decreases |top| - k
  {
    if k == |top| then (top, mine)
    else if top[k].parentDId == id then Collected(top[..k] + top[k + 1..], k, mine + [top[k]], id)
    else Collected(top, k + 1, mine, id)
  }

  lemma {:induction false} CollectedIsFilter(top: seq<Node>, k: nat, mine: seq<Node>, id: nat)
    requires k <= |top|
    ensures Collected(top, k, mine, id) == (top[..k] + Filter(top[k..], id, false), mine + Filter(top[k..], id, true))
    ensures k == 0 ==> top[..k] + Filter(top[k..], id, false) == Filter(top, id, false)
    ensures mine == [] && k == 0 ==> mine + Filter(top[k..], id, true) == Filter(top, id, true)
    decreases |top| - k
  {
    assert k == 0 ==> top[k..] == top;
    if k == |top| {
      assert top[k..] == [] && top[..k] + [] == top && mine + [] == mine;
    } else {
      var top' := top[..k] + top[k + 1..];
      assert top[k..][1..] == top[k + 1..];
      if top[k].parentDId == id {
        CollectedIsFilter(top', k, mine + [top[k]], id);
        var later := Filter(top[k + 1..], id, true);
        assert (mine + [top[k]]) + later == mine + ([top[k]] + later);
        assert [] + Filter(top[k + 1..], id, false) == Filter(top[k + 1..], id, false);
        assert top'[k..] == top[k + 1..] && top'[..k] == top[..k];
      } else {
        CollectedIsFilter(top, k + 1, mine, id);
        var later := Filter(top[k + 1..], id, false);
        assert (top[..k] + [top[k]]) + later == top[..k] + ([top[k]] + later);
        assert [] + Filter(top[k + 1..], id, true) == Filter(top[k + 1..], id, true);
        assert top[..k + 1] == top[..k] + [top[k]];
      }
    }
  }

  lemma {:induction false} SelectKeepsLinks(f: Forest, id: nat, take: bool)
    requires Distinct(f) && KidsLinked(f)
    ensures var g := Select(f, id, take);
      && Distinct(g) && Nodes(g) <= Nodes(f) && SetOf(Roots(g)) <= Nodes(g)
      && Roots(g) == Filter(Roots(f), id, take) && KidsLinked(g)
  {
    SelectShape(f, id, take);
    var g := Select(f, id, take);
    RootsAreNodes(g);
    forall x | x in Nodes(g)
      ensures KidsLinkedAt(x, KidsOf(g, x), Inner(g))
    {
      assert KidsLinkedAt(x, KidsOf(f, x), Inner(f));
      KidsAreInner(g, x);
    }
  }
}
