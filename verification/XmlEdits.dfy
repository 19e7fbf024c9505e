/**
 Whole runs of edits: any list of children appended, inserted, replaced and removed anywhere in a tree on
 the heap does to the tree what the same edits do to its value.
 */
module XmlEdits {
  import opened XmlTree
  import opened XmlAttributes
  import opened XmlDom

  /** An edit of a list of children; AtEnd links the node itself and the other operations a copy of it. */
  datatype Edit<N> = Put(op: ListOp, k: nat, node: N) | Drop(k: nat) | Nothing

  function Edited(kids: seq<Tree>, e: Edit<Tree>): seq<Tree> {
    match e
    case Put(AtEnd, _, t) => kids + [t]
    case Put(Before, k, t) => if k < |kids| then kids[..k] + [Copied(t)] + kids[k..] else kids
    case Put(After, k, t) => if k < |kids| then kids[..k + 1] + [Copied(t)] + kids[k + 1..] else kids
    case Put(Instead, k, t) => if k < |kids| then kids[k := Copied(t)] else kids
    case Drop(k) => if k < |kids| then kids[..k] + kids[k + 1..] else kids
    case Nothing => kids
  }

  /** The edit on values; a document is refused. */
  ghost function ValueOf(e: Edit<Node>): Edit<Tree>
    reads if e.Put? then {e.node} else {}
  {
    match e
    case Put(op, k, node) => if node.kind.DocumentNode? then Nothing else Put(op, k, node.tree)
    case Drop(k) => Drop(k)
    case Nothing => Nothing
  }

  ghost function ValuesOf(edits: seq<Edit<Node>>): (r: seq<Edit<Tree>>)
    reads set e | e in edits && e.Put? :: e.node
    ensures |r| == |edits| && forall i :: 0 <= i < |r| ==> r[i] == ValueOf(edits[i])
  {
    if edits == [] then [] else [ValueOf(edits[0])] + ValuesOf(edits[1..])
  }

  predicate Links(e: Edit<Node>) {
    e.Put? && e.op == AtEnd
  }

  /** What the node of an edit consists of. */
  ghost function Body(e: Edit<Node>): set<object>
    reads if e.Put? then {e.node} else {}
  {
    if e.Put? then e.node.Repr else {}
  }

  /** The same if the node is linked itself. */
  ghost function Parts(e: Edit<Node>): set<object>
    reads if e.Put? then {e.node} else {}
  {
    if Links(e) then Body(e) else {}
  }

  ghost function AllBodies(edits: seq<Edit<Node>>): set<object>
    reads set e | e in edits && e.Put? :: e.node
  {
    if edits == [] then {} else Body(edits[0]) + AllBodies(edits[1..])
  }

  ghost function AllParts(edits: seq<Edit<Node>>): set<object>
    reads set e | e in edits && e.Put? :: e.node
  {
    if edits == [] then {} else Parts(edits[0]) + AllParts(edits[1..])
  }

  /** An edit can be done: its node is a tree of its own, and without a parent if it is to be linked itself. */
  ghost predicate Ready(n: Node, e: Edit<Node>)
    reads *
  {
    e.Put? ==> e.node.Valid() && e.node.Repr !! n.Repr && (Links(e) ==> e.node.parent == null)
  }

  /** Every edit can be done, and a node that is linked itself has no part in any other edit. */
  ghost predicate AllReady(n: Node, edits: seq<Edit<Node>>)
    reads *
  {
    edits != [] ==>
      Ready(n, edits[0]) && Parts(edits[0]) !! AllBodies(edits[1..]) && Body(edits[0]) !! AllParts(edits[1..]) &&
      AllReady(n, edits[1..])
  }

  /** The k-th child, found by walking along the list. */
  method NthChild(n: Node, k: nat) returns (r: Node?)
    requires n.Valid() && n.IsParent()
    ensures |n.children| == |n.tree.children|
    ensures r == if k < |n.children| then n.children[k] else null
    ensures r != null ==> r.parent == n
  {
    hide *;
    n.ChildrenOf(0);
    n.Parts();
    r := n.firstChild;
    var i := 0;
    while r != null && i < k
      invariant 0 <= i <= k && i <= |n.children| && r == Node.At(n.children, i)
    {
      n.ChildrenOf(i);
      AtMeans(n.children, i);
      r := r.next;
      i := i + 1;
    }
    AtMeans(n.children, i);
    ChildHasParent(n);
  }

  lemma AtMeans(s: seq<Node>, i: nat)
    ensures Node.At(s, i) == if i < |s| then s[i] else null
  {
  }

  lemma ChildHasParent(n: Node)
    requires n.Linked()
    ensures forall i :: 0 <= i < |n.children| ==> n.children[i].parent == n
  {
  }

  // ---------- one edit ----------

  lemma EditedCases(t: Tree)
    requires t.Element?
    ensures Edited(t.children, Nothing) == t.children && t.(children := t.children) == t
    ensures forall k: nat, c {:trigger Edited(t.children, Put(AtEnd, k, c))} ::
      Edited(t.children, Put(AtEnd, k, c)) == t.children + [c]
    ensures forall op, k: nat, c {:trigger Edited(t.children, Put(op, k, c))} :: op != AtEnd ==>
      t.(children := Edited(t.children, Put(op, k, c))) == if k < |t.children| then TreeWith(t, op, k, Copied(c)) else t
    ensures forall k: nat {:trigger Edited(t.children, Drop(k))} ::
      t.(children := Edited(t.children, Drop(k))) == if k < |t.children| then TreeWithout(t, k) else t
  {
    hide Copied;
  }

  /** The node stays in its place in the list of its parent. */
  twostate predicate Stays(n: Node)
    reads n
  {
    n.parent == old(n.parent) && n.prev == old(n.prev) && n.next == old(n.next)
  }

  method EditOne(n: Node, e: Edit<Node>)
    requires n.Valid() && n.IsParent() && Ready(n, e)
    modifies n.Repr, Parts(e)
    ensures n.Valid() && old(n.Repr) <= n.Repr && Stays(n)
    ensures fresh(n.Repr - old(n.Repr) - old(Parts(e)))
    ensures n.tree == old(n.tree).(children := Edited(old(n.tree.children), old(ValueOf(e))))
  {
    hide Node.Valid, Node.Placed, Copied, TreeWith, TreeWithout, Node.Splice, Edited;
    n.ChildrenInside();
    EditedCases(n.tree);
    match e {
      case Put(op, k, node) =>
        if op == AtEnd {
          AppendOne(n, node);
        } else {
          PutOne(n, op, k, node);
        }
      case Drop(k) => DropOne(n, k);
      case Nothing =>
    }
  }

  method AppendOne(n: Node, node: Node)
    requires n.Valid() && n.IsParent() && node.Valid() && node.Repr !! n.Repr && node.parent == null
    modifies n.Repr, node
    ensures Stays(n) && n.Valid() && old(n.Repr) <= n.Repr <= old(n.Repr) + node.Repr && node.Repr == old(node.Repr)
    ensures n.tree == old(n.tree).(children := old(n.tree.children) +
              if node.kind.DocumentNode? then [] else [old(node.tree)])
  {
    hide Node.Valid, Node.Placed, Copied, TreeWith, TreeWithout, Node.Splice, Edited;
    n.ChildrenInside();
    var _ := n.Append(node);
  }

  method PutOne(n: Node, op: ListOp, k: nat, node: Node)
    requires n.Valid() && n.IsParent() && node.Valid() && node.Repr !! n.Repr && op != AtEnd
    modifies n.Repr
    ensures n.Valid() && old(n.Repr) <= n.Repr && fresh(n.Repr - old(n.Repr)) && Stays(n)
    ensures n.tree == old(n.tree).(children :=
              Edited(old(n.tree.children), if node.kind.DocumentNode? then Nothing else Put(op, k, old(node.tree))))
  {
    hide Node.Valid, Node.Placed, Copied, TreeWith, TreeWithout, Node.Splice, Edited;
    n.ChildrenInside();
    EditedCases(n.tree);
    ghost var t, c := n.tree, node.tree;
    assert t.(children := Edited(t.children, Put(op, k, c))) == if k < |t.children| then TreeWith(t, op, k, Copied(c)) else t;
    var at := NthChild(n, k);
    var r: Node?;
    match op {
      case Before => r := n.InsertBeforeChild(at, node, k);
      case After => r := n.InsertAfterChild(at, node, k);
      case Instead => r := n.ReplaceChild(at, node, k);
    }
  }

  method DropOne(n: Node, k: nat)
    requires n.Valid() && n.IsParent()
    modifies n.Repr
    ensures n.Valid() && n.Repr == old(n.Repr) && Stays(n)
    ensures n.tree == old(n.tree).(children := Edited(old(n.tree.children), Drop(k)))
  {
    hide Node.Valid, Node.Placed, Copied, TreeWith, TreeWithout, Node.Splice, Edited;
    n.ChildrenInside();
    EditedCases(n.tree);
    var at := NthChild(n, k);
    if at != null {
      n.Remove(at, k);
    }
  }

  // ---------- edits further down ----------

  /** The tree after an edit of the node at a place below it, if there is one that holds children. */
  function EditedAt(t: Tree, path: seq<nat>, e: Edit<Tree>): Tree
    decreases |path|
  {
    if !t.Element? then t
    else if path == [] then t.(children := Edited(t.children, e))
    else if path[0] < |t.children| then
      t.(children := t.children[path[0] := EditedAt(t.children[path[0]], path[1..], e)])
    else t
  }

  method EditAt(n: Node, path: seq<nat>, e: Edit<Node>)
    requires n.Valid() && Ready(n, e)
    modifies n.Repr, Parts(e)
    ensures n.Valid() && old(n.Repr) <= n.Repr && Stays(n)
    ensures fresh(n.Repr - old(n.Repr) - old(Parts(e)))
    ensures n.tree == EditedAt(old(n.tree), path, old(ValueOf(e)))
    decreases |path|, 1
  {
    hide Node.Valid, Ready, ValueOf, Parts, Edited;
    n.ChildrenInside();
    ElementHoldsChildren(n);
    if n.IsParent() {
      if path == [] {
        EditOne(n, e);
      } else {
        var child := NthChild(n, path[0]);
        if child != null {
          EditChild(n, child, path, e);
        }
      }
    }
  }

  lemma ElementHoldsChildren(n: Node)
    requires n.Valid()
    ensures n.IsParent() <==> n.tree.Element?
  {
  }

  /** An edit below a child, and what it changes above it. */
  method EditChild(n: Node, child: Node, path: seq<nat>, e: Edit<Node>)
    requires n.Valid() && n.IsParent() && Ready(n, e) && path != []
    requires path[0] < |n.children| && n.children[path[0]] == child
    modifies n.Repr, Parts(e)
    ensures n.Valid() && old(n.Repr) <= n.Repr && Stays(n)
    ensures fresh(n.Repr - old(n.Repr) - old(Parts(e)))
    ensures n.tree == EditedAt(old(n.tree), path, old(ValueOf(e)))
    decreases |path|, 0
  {
    hide Node.Valid, Node.Linked, Node.Apart, Node.TreeMatches, Node.OwnsAttributes, Trees, Node.Attrs, Ready, ValueOf, Parts, EditedAt,
      AttributeSet.Repr;
    n.Parts();
    n.ElementTree();
    n.ChildrenOf(path[0]);
    n.ChildrenOffAttributes();
    SiblingsApart(n, child);
    ReadyBelow(n, child, e);
    ghost var k, kids, trees := path[0], n.children, Trees(n.children);
    EditedBelow(n.tree, path, ValueOf(e));
    label before:
    EditAt(child, path[1..], e);
    NewParts(old(n.Repr), old(child.Repr), child.Repr, old(Parts(e)));
    SelfKept@before(n, child);
    ListKept@before(n, child);
    ChildrenKept@before(n, child);
    n.Adopt(child.Repr);
    TreesBut(kids, k, trees);
  }

  lemma SiblingsApart(n: Node, child: Node)
    requires n.Valid() && child in n.children
    ensures forall c :: c in n.children && c != child ==> c.Repr !! child.Repr && c !in child.Repr
    ensures forall c :: c in n.children ==> c in c.Repr
  {
    n.Parts();
    hide Node.Valid, Node.Linked, Node.TreeMatches, Node.OwnsAttributes;
    forall c | c in n.children && c != child
      ensures c.Repr !! child.Repr && c !in child.Repr
    {
      assert c in c.Repr;
    }
  }

  lemma NewParts(all: set<object>, was: set<object>, now: set<object>, parts: set<object>)
    requires forall o :: o in now - was - parts ==> o !in all
    requires parts !! all
    ensures (now - was) !! all
  {
  }

  lemma EditedBelow(t: Tree, path: seq<nat>, e: Edit<Tree>)
    requires t.Element? && path != [] && path[0] < |t.children|
    ensures EditedAt(t, path, e) ==
            t.(children := t.children[path[0] := EditedAt(t.children[path[0]], path[1..], e)])
  {
  }

  lemma TreesBut(kids: seq<Node>, k: nat, trees: seq<Tree>)
    requires k < |kids| == |trees| && forall i :: 0 <= i < |kids| && i != k ==> kids[i].tree == trees[i]
    ensures Trees(kids) == trees[k := kids[k].tree]
  {
  }

  lemma ReadyBelow(n: Node, child: Node, e: Edit<Node>)
    requires Ready(n, e) && child.Repr <= n.Repr
    ensures Ready(child, e) && Parts(e) !! n.Repr
  {
  }


  /** The node itself and its attributes are what they were. */
  twostate lemma SelfKept(new n: Node, new child: Node)
    requires old(allocated(n) && allocated(child)) && old(n.OwnsAttributes(n.Repr - {n}) && n in n.Repr)
    requires forall o :: o in old(n.Repr) && o !in old(child.Repr) ==> unchanged(o)
    requires old(n !in child.Repr && child.Repr !! n.attributeSet.Repr())
    ensures n.Repr == old(n.Repr) && n.children == old(n.children) && n.tree == old(n.tree) && n.value == old(n.value)
    ensures n.OwnsAttributes(n.Repr - {n}) && n.Attrs() == old(n.Attrs())
    ensures n.attributeSet.Repr() == old(n.attributeSet.Repr()) && n.attributeSet.Repr() <= n.Repr
  {
    hide AttributeSet.Valid, AttributeSet.Contents;
    AttributesKept(n.attributeSet);
  }

  twostate lemma AttributesKept(new s: AttributeSet)
    requires old(allocated(s)) && old(s.Valid()) && forall o :: o in old(s.Repr()) ==> unchanged(o)
    ensures s.Valid() && s.Contents() == old(s.Contents()) && s.Repr() == old(s.Repr())
  {
    assert s in old(s.Repr()) && s.sentinel in old(s.Repr());
    assert unchanged(s) && unchanged(s.sentinel);
    assert forall i :: 0 <= i < |s.nodes| ==> s.nodes[i] in s.nodes && s.nodes[i] in old(s.Repr());
    hide AttributeSet.Repr, AttributeSet.Ring, AttributeSet.Contents, UsableNames;
    RingKept(s);
    ContentsKept(s);
  }

  twostate lemma RingKept(new s: AttributeSet)
    requires old(allocated(s)) && old(s.Ring()) && unchanged(s) && unchanged(s.sentinel)
    requires forall i :: 0 <= i < |s.nodes| ==> old(allocated(s.nodes[i])) && unchanged(s.nodes[i])
    ensures s.Ring()
  {
    hide AttributeSet.Distinct, AttributeSet.At;
    forall i | 0 <= i < |s.nodes|
      ensures s.nodes[i].next == old(s.nodes[i].next) && s.nodes[i].prev == old(s.nodes[i].prev)
    {
      assert unchanged(s.nodes[i]);
    }
  }

  twostate lemma ContentsKept(new s: AttributeSet)
    requires old(allocated(s)) && unchanged(s)
    requires forall i :: 0 <= i < |s.nodes| ==> old(allocated(s.nodes[i])) && unchanged(s.nodes[i])
    ensures s.Contents() == old(s.Contents())
  {
    hide Pairs;
    forall i | 0 <= i < |s.nodes|
      ensures s.Contents()[i] == old(s.Contents())[i]
    {
      assert unchanged(s.nodes[i]);
    }
  }

  /** The list of children is linked as before. */
  twostate lemma ListKept(new n: Node, new child: Node)
    requires old(allocated(n) && allocated(child)) && old(n.Linked()) && unchanged(n) && Stays(child)
    requires forall c :: c in old(n.children) && c != child ==> unchanged(c)
    ensures n.Linked()
  {
    var s := n.children;
    forall i | 0 <= i < |s|
      ensures s[i].next == old(s[i].next) && s[i].prev == old(s[i].prev) && s[i].parent == old(s[i].parent)
    {
      assert s[i] in s;
    }
  }

  /** The children are valid trees of their own. */
  twostate lemma ChildrenKept(new n: Node, new child: Node)
    requires old(allocated(n) && allocated(child)) && unchanged(n) && child.Valid()
    requires old(n in n.Repr && Node.Apart(n.children, n.Repr - {n} - n.attributeSet.Repr()) && child in n.children)
    requires old(forall c :: c in n.children ==> c.Valid() && c in n.Repr && c.Repr <= n.Repr && n !in c.Repr && c != n)
    requires old(forall c :: c in n.children && c != child ==> c.Repr !! child.Repr)
    requires forall o :: o in old(n.Repr) && o !in old(child.Repr) ==> unchanged(o)
    requires old(child.Repr) <= child.Repr && (child.Repr - old(child.Repr)) !! old(n.Repr)
    requires n.attributeSet.Repr() == old(n.attributeSet.Repr()) && n.attributeSet.Repr() <= n.Repr
    ensures Node.Apart(n.children, n.Repr + child.Repr - {n} - n.attributeSet.Repr())
    ensures forall c :: c in n.children ==> c in n.Repr + child.Repr && n !in c.Repr && c != n && c.Valid()
    ensures forall c :: c in n.children && c != child ==> c.tree == old(c.tree)
  {
    hide Node.Valid;
    forall c | c in n.children && c != child
      ensures c.Valid() && c.Repr == old(c.Repr) && c.tree == old(c.tree)
    {
      TreeKept(c);
    }
    hide AttributeSet.Repr;
    var s, R := n.children, n.Repr + child.Repr - {n} - n.attributeSet.Repr();
    forall c | c in s
      ensures c in c.Repr && c.Repr <= R && !c.kind.DocumentNode?
    {
      assert c.Repr <= old(c.Repr) + (child.Repr - old(child.Repr));
    }
    forall i, j | 0 <= i < j < |s|
      ensures s[i].Repr !! s[j].Repr
    {
      assert s[i] in s && s[j] in s && s[i] in old(s[i].Repr) && s[j] in old(s[j].Repr);
    }
  }

  twostate lemma TreeKept(new c: Node)
    requires old(allocated(c)) && old(c.Valid()) && forall o :: o in old(c.Repr) ==> unchanged(o)
    ensures c.Valid() && c.Repr == old(c.Repr) && c.tree == old(c.tree)
  {
  }

  // ---------- any run of edits ----------

  /** An edit leaves alone the tree that a separate edit is to put. */
  twostate lemma StillReady(new n: Node, new first: Edit<Node>, new e: Edit<Node>)
    requires old(allocated(n) && allocated(first) && allocated(e))
    requires old(n.Valid() && Ready(n, first) && Ready(n, e) && Parts(first) !! Body(e))
    requires forall o: object :: old(allocated(o)) && o !in old(n.Repr) && o !in old(Parts(first)) ==> unchanged(o)
    requires fresh(n.Repr - old(n.Repr) - old(Parts(first)))
    ensures Ready(n, e) && ValueOf(e) == old(ValueOf(e)) && Body(e) == old(Body(e))
  {
  }

  /** The edits that are left can still be done, put the same trees and take up the same parts. */
  twostate lemma {:induction false} AllStillReady(new n: Node, new first: Edit<Node>, new edits: seq<Edit<Node>>)
    requires old(allocated(n) && allocated(first) && allocated(edits))
    requires old(n.Valid() && Ready(n, first) && AllReady(n, edits) && Parts(first) !! AllBodies(edits))
    requires forall o: object :: old(allocated(o)) && o !in old(n.Repr) && o !in old(Parts(first)) ==> unchanged(o)
    requires fresh(n.Repr - old(n.Repr) - old(Parts(first)))
    ensures AllReady(n, edits) && ValuesOf(edits) == old(ValuesOf(edits))
    ensures AllParts(edits) == old(AllParts(edits)) && AllBodies(edits) == old(AllBodies(edits))
  {
    hide Ready, ValueOf, Body, Node.Valid;
    if edits != [] {
      StillReady(n, first, edits[0]);
      AllStillReady(n, first, edits[1..]);
    }
  }

  /** Any run of edits, each at its own place. */
  function EditedAll(t: Tree, places: seq<seq<nat>>, edits: seq<Edit<Tree>>): Tree
    requires |places| == |edits|
    decreases |edits|
  {
    if edits == [] then t else EditedAll(EditedAt(t, places[0], edits[0]), places[1..], edits[1..])
  }

  /**
   Any run of edits at any places of a tree on the heap: it stays a valid tree, and its value is that of
   the same run on the value.  A place is named by the positions of the children on the way to it.
   */
  method EditAll(n: Node, places: seq<seq<nat>>, edits: seq<Edit<Node>>)
    requires n.Valid() && AllReady(n, edits) && |places| == |edits|
    modifies n.Repr, AllParts(edits)
    ensures n.Valid() && n.tree == EditedAll(old(n.tree), places, old(ValuesOf(edits)))
    decreases |edits|
  {
    hide Node.Valid, EditedAt, Ready, ValueOf, Parts, Body, AllBodies;
    if edits == [] {
      return;
    }
    label before:
    EditAt(n, places[0], edits[0]);
    AllStillReady@before(n, edits[0], edits[1..]);
    EditAll(n, places[1..], edits[1..]);
  }
}
