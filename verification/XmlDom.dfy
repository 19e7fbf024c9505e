/**
 TiXmlNode: an element of the document with its list of children, linked by firstChild, lastChild
 and the prev, next and parent fields of the children themselves.
 */
module XmlDom {
  import opened XmlText
  import opened XmlTree
  import opened XmlAttributes

  datatype Kind = DocumentNode | ElementNode | TextNode | CommentNode | UnknownNode

  class Node {
    const kind: Kind
    const attributeSet: AttributeSet
    var value: string
    var cdata: bool
    var parent: Node?
    var firstChild: Node?
    var lastChild: Node?
    var prev: Node?
    var next: Node?
    ghost var children: seq<Node>
    ghost var Repr: set<object>
    ghost var tree: Tree

    // ---------- the list of children ----------

    /** The children, in order, are what the pointers say. */
    ghost predicate Linked()
      reads this`firstChild, this`lastChild, this`children, children`prev, children`next, children`parent
    {
      Distinct(children) && Forward(children) && Backward(children) && Owned(children)
    }

    ghost predicate Distinct(s: seq<Node>) {
      this !in s && forall i, j :: 0 <= i < j < |s| ==> s[i] != s[j]
    }

    ghost predicate Forward(s: seq<Node>)
      reads this`firstChild, s`next
    {
      firstChild == At(s, 0) &&
      forall i {:trigger s[i].next} :: 0 <= i < |s| ==> s[i].next == At(s, i + 1)
    }

    ghost predicate Backward(s: seq<Node>)
      reads this`lastChild, s`prev
    {
      lastChild == At(s, |s| - 1) &&
      forall i {:trigger s[i].prev} :: 0 <= i < |s| ==> s[i].prev == At(s, i - 1)
    }

    ghost predicate Owned(s: seq<Node>)
      reads s`parent
    {
      forall i :: 0 <= i < |s| ==> s[i].parent == this
    }

    static ghost function At(s: seq<Node>, i: int): Node? {
      if 0 <= i < |s| then s[i] else null
    }

    // Every operation cuts children[i..j] out of the list and puts nothing or one node in its place.

    /** The list with s[i..j] replaced by mid. */
    static ghost function Splice(s: seq<Node>, i: nat, j: nat, mid: seq<Node>): seq<Node>
      requires i <= j <= |s|
    {
      s[..i] + mid + s[j..]
    }

    static lemma SpliceIs(s: seq<Node>, i: nat, j: nat, mid: seq<Node>)
      requires i <= j <= |s| && |mid| <= 1
      ensures var t := Splice(s, i, j, mid);
              |t| == i + |mid| + |s| - j &&
              (forall k :: 0 <= k < i ==> t[k] == s[k]) && (mid != [] ==> t[i] == mid[0]) &&
              forall k :: i + |mid| <= k < |t| ==> t[k] == s[k - i - |mid| + j]
    {
    }

    /** "if a then a->next = b else firstChild = b" */
    method PointForward(a: Node?, b: Node?, ghost i: nat, ghost j: nat, ghost mid: seq<Node>)
      requires i <= j <= |children| && Distinct(children) && Forward(children)
      requires |mid| <= 1 && (mid != [] ==> mid[0] !in children && mid[0].next == At(children, j))
      requires a == At(children, i - 1) && b == if mid != [] then mid[0] else At(children, j)
      modifies this`firstChild, children`next
      ensures Forward(Splice(children, i, j, mid))
      ensures forall c :: c in children && c != a ==> c.next == old(c.next)
    {
      if a != null {
        a.next := b;
      } else {
        firstChild := b;
      }
      ForwardSpliced(b, i, j, mid);
    }

    lemma ForwardSpliced(b: Node?, i: nat, j: nat, mid: seq<Node>)
      requires i <= j <= |children| && |mid| <= 1 && (mid != [] ==> mid[0].next == At(children, j))
      requires b == if mid != [] then mid[0] else At(children, j)
      requires firstChild == if i == 0 then b else At(children, 0)
      requires forall k {:trigger children[k].next} :: 0 <= k < |children| ==>
        children[k].next == if k == i - 1 then b else At(children, k + 1)
      ensures Forward(Splice(children, i, j, mid))
    {
      hide Splice;
      SpliceIs(children, i, j, mid);
    }

    /** "if b then b->prev = a else lastChild = a" */
    method PointBackward(a: Node?, b: Node?, ghost i: nat, ghost j: nat, ghost mid: seq<Node>)
      requires i <= j <= |children| && Distinct(children) && Backward(children)
      requires |mid| <= 1 && (mid != [] ==> mid[0] !in children && mid[0].prev == At(children, i - 1))
      requires b == At(children, j) && a == if mid != [] then mid[0] else At(children, i - 1)
      modifies this`lastChild, children`prev
      ensures Backward(Splice(children, i, j, mid))
      ensures forall c :: c in children && c != b ==> c.prev == old(c.prev)
    {
      if b != null {
        b.prev := a;
      } else {
        lastChild := a;
      }
      BackwardSpliced(a, i, j, mid);
    }

    lemma BackwardSpliced(a: Node?, i: nat, j: nat, mid: seq<Node>)
      requires i <= j <= |children| && |mid| <= 1 && (mid != [] ==> mid[0].prev == At(children, i - 1))
      requires a == if mid != [] then mid[0] else At(children, i - 1)
      requires lastChild == if j == |children| then a else At(children, |children| - 1)
      requires forall k {:trigger children[k].prev} :: 0 <= k < |children| ==>
        children[k].prev == if k == j then a else At(children, k - 1)
      ensures Backward(Splice(children, i, j, mid))
    {
      hide Splice;
      SpliceIs(children, i, j, mid);
    }

    lemma SpliceDistinct(i: nat, j: nat, mid: seq<Node>)
      requires i <= j <= |children| && Distinct(children)
      requires |mid| <= 1 && (mid != [] ==> mid[0] !in children && mid[0] != this)
      ensures Distinct(Splice(children, i, j, mid))
      ensures var t := Splice(children, i, j, mid);
              forall k :: 0 <= k < |t| ==> t[k] in children || t[k] in mid
    {
      hide Splice;
      SpliceIs(children, i, j, mid);
    }

    method LinkEndChild(node: Node) returns (r: Node?)
      requires Linked() && node != this && node !in children && (node.parent == null || node.parent == this)
      modifies this`firstChild, this`lastChild, this`children, children`next, children`prev
      modifies node`parent, node`prev, node`next
      ensures Linked()
      ensures node.kind.DocumentNode? ==> r == null && unchanged(this, node) && forall c :: c in children ==> unchanged(c)
      ensures !node.kind.DocumentNode? ==> r == node && children == old(children) + [node] && node.parent == this
    {
      if node.kind.DocumentNode? {
        return null;
      }
      LinkLast(node);
      return node;
    }

    method LinkLast(node: Node)
      requires Linked() && node != this && node !in children
      modifies this`firstChild, this`lastChild, this`children, children`next, children`prev
      modifies node`parent, node`prev, node`next
      ensures Linked() && children == old(children) + [node] && node.parent == this
    {
      hide Forward, Backward, Distinct;
      ghost var n := |children|;
      SpliceDistinct(n, n, [node]);
      LastOf(children);
      assert Splice(children, n, n, [node]) == children + [node];
      node.parent := this;
      node.prev := lastChild;
      node.next := null;
      PointForward(lastChild, node, n, n, [node]);
      PointBackward(node, null, n, n, [node]);
      children := children + [node];
    }

    lemma LastOf(s: seq<Node>)
      requires Backward(s)
      ensures lastChild == At(s, |s| - 1)
    {
    }

    lemma Neighbours(k: nat)
      requires Linked() && k < |children|
      ensures children[k].next == At(children, k + 1) && children[k].prev == At(children, k - 1)
      ensures At(children, k) == children[k]
      ensures children[k].next != children[k] && children[k].prev != children[k] && children[k].parent == this
    {
    }

    lemma LinkedParts()
      ensures Linked() <==> Distinct(children) && Forward(children) && Backward(children) && Owned(children)
      ensures Owned(children) ==> forall i :: 0 <= i < |children| ==> children[i].parent == this
    {
      hide Distinct, Forward, Backward;
    }

    lemma OwnedAll()
      requires forall i :: 0 <= i < |children| ==> children[i].parent == this
      ensures Owned(children)
    {
    }

    /** InsertBeforeChild, once the checks are passed and the copy is made. */
    method LinkBefore(beforeThis: Node, node: Node, ghost k: nat)
      requires Linked() && k < |children| && children[k] == beforeThis && node != this && node !in children
      modifies this`firstChild, this`lastChild, this`children, children`next, children`prev
      modifies node`parent, node`prev, node`next
      ensures Linked() && children == old(Splice(children, k, k, [node])) && node.parent == this
    {
      hide *;
      LinkedParts();
      Neighbours(k);
      SpliceDistinct(k, k, [node]);
      ghost var s := Splice(children, k, k, [node]);
      node.parent := this;
      node.next := beforeThis;
      node.prev := beforeThis.prev;
      PointForward(beforeThis.prev, node, k, k, [node]);
      PointBackward(node, beforeThis, k, k, [node]);
      children := s;
      OwnedAll();
      LinkedParts();
    }

    /** InsertAfterChild, once the checks are passed and the copy is made. */
    method LinkAfter(afterThis: Node, node: Node, ghost k: nat)
      requires Linked() && k < |children| && children[k] == afterThis && node != this && node !in children
      modifies this`firstChild, this`lastChild, this`children, children`next, children`prev
      modifies node`parent, node`prev, node`next
      ensures Linked() && children == old(Splice(children, k + 1, k + 1, [node])) && node.parent == this
    {
      hide *;
      LinkedParts();
      Neighbours(k);
      SpliceDistinct(k + 1, k + 1, [node]);
      ghost var s := Splice(children, k + 1, k + 1, [node]);
      node.parent := this;
      node.prev := afterThis;
      node.next := afterThis.next;
      PointBackward(node, afterThis.next, k + 1, k + 1, [node]);
      PointForward(afterThis, node, k + 1, k + 1, [node]);
      children := s;
      OwnedAll();
      LinkedParts();
    }

    /** ReplaceChild, once the checks are passed and the copy is made. */
    method LinkInstead(replaceThis: Node, node: Node, ghost k: nat)
      requires Linked() && k < |children| && children[k] == replaceThis && node != this && node !in children
      modifies this`firstChild, this`lastChild, this`children, children`next, children`prev
      modifies node`parent, node`prev, node`next
      ensures Linked() && children == old(Splice(children, k, k + 1, [node])) && node.parent == this
    {
      hide *;
      LinkedParts();
      Neighbours(k);
      SpliceDistinct(k, k + 1, [node]);
      ghost var s := Splice(children, k, k + 1, [node]);
      node.next := replaceThis.next;
      node.prev := replaceThis.prev;
      PointBackward(node, replaceThis.next, k, k + 1, [node]);
      PointForward(replaceThis.prev, node, k, k + 1, [node]);
      node.parent := this;
      children := s;
      OwnedAll();
      LinkedParts();
    }

    /** RemoveChild without the destruction of the removed node; false when it has another parent. */
    method RemoveChild(removeThis: Node?, ghost k: nat) returns (removed: bool)
      requires Linked()
      requires removeThis != null && removeThis.parent == this ==> k < |children| && children[k] == removeThis
      modifies this`firstChild, this`lastChild, this`children, children`next, children`prev
      ensures Linked()
      ensures removed == (removeThis != null && old(removeThis.parent) == this)
      ensures children == if removed then old(Splice(children, k, k + 1, [])) else old(children)
    {
      if removeThis == null {
        return false;
      }
      if removeThis.parent != this {
        return false;
      }
      LinkWithout(removeThis, k);
      return true;
    }

    method LinkWithout(removeThis: Node, ghost k: nat)
      requires Linked() && k < |children| && children[k] == removeThis
      modifies this`firstChild, this`lastChild, this`children, children`next, children`prev
      ensures Linked() && children == old(Splice(children, k, k + 1, []))
    {
      hide *;
      LinkedParts();
      Neighbours(k);
      SpliceDistinct(k, k + 1, []);
      ghost var s := Splice(children, k, k + 1, []);
      PointBackward(removeThis.prev, removeThis.next, k, k + 1, []);
      PointForward(removeThis.prev, removeThis.next, k, k + 1, []);
      children := s;
      OwnedAll();
      LinkedParts();
    }

    // ---------- the tree below a node ----------

    ghost predicate OwnsAttributes(R: set<object>)
      reads attributeSet, attributeSet.sentinel, attributeSet.nodes
    {
      attributeSet in R && attributeSet.sentinel in R && (forall a :: a in attributeSet.nodes ==> a in R) &&
      attributeSet.Valid()
    }

    /** The children's trees take up disjoint parts of R. */
    static ghost predicate Apart(s: seq<Node>, R: set<object>)
      reads s`Repr
    {
      (forall c :: c in s ==> c in c.Repr && c.Repr <= R && !c.kind.DocumentNode?) &&
      forall i, j :: 0 <= i < j < |s| ==> s[i].Repr !! s[j].Repr
    }

    /**
     The node and everything below it form a tree whose abstract value is the ghost field tree.
     The node's own prev, next and parent fields belong to its parent.
     */
    ghost predicate Valid()
      reads this`children, this`Repr, this`tree, this`value, this`cdata, this`firstChild, this`lastChild
      reads Repr - {this}
      ensures Valid() ==> this in Repr && (kind.ElementNode? || kind.DocumentNode? ==> tree.Element?)
      decreases Repr
    {
      this in Repr &&
      attributeSet in Repr && attributeSet as object != this &&
      attributeSet.sentinel in Repr && attributeSet.sentinel as object != this &&
      (forall a :: a in attributeSet.nodes ==> a in Repr && a as object != this) &&
      OwnsAttributes(Repr - {this}) &&
      (forall c :: c in children ==> c in Repr && c != this) &&
      Apart(children, Repr - {this} - attributeSet.Repr()) &&
      Linked() &&
      (forall c :: c in children ==> c.Valid()) &&
      TreeMatches()
    }

    ghost predicate TreeMatches()
      reads this`children, this`tree, this`value, this`cdata, children`tree
      reads attributeSet, attributeSet.nodes`name, attributeSet.nodes`value
    {
      match kind
      case DocumentNode => tree == Element(value, [], Trees(children))
      case ElementNode => tree == Element(value, attributeSet.Contents(), Trees(children))
      case TextNode => tree == Text(value, cdata) && children == []
      case CommentNode => tree == Comment(value) && children == []
      case UnknownNode => tree == Unknown(value) && children == []
    }

    constructor (kind: Kind, value: string, cdata: bool)
      ensures Valid() && fresh(Repr) && parent == null
      ensures this.kind == kind && children == []
      ensures tree == NewTree(kind, CStr(value), cdata)
    {
      this.kind, this.value, this.cdata := kind, CStr(value), cdata;
      attributeSet := new AttributeSet();
      parent, firstChild, lastChild, prev, next := null, null, null, null, null;
      children := [];
      new;
      Repr := {this} + attributeSet.Repr();
      tree := NewTree(kind, CStr(value), cdata);
    }

    /** What a node needs in order to stay a valid tree. */
    twostate lemma Kept(new c: Node)
      requires allocated(c) && old(allocated(c)) && old(c.Valid())
      requires unchanged(c`children, c`Repr, c`tree, c`value, c`cdata, c`firstChild, c`lastChild)
      requires forall o :: o in old(c.Repr) && o != c ==> unchanged(o)
      ensures c.Valid()
    {
    }

    lemma TreesMeetNoSibling(c: Node)
      requires Valid() && c in children
      ensures forall o :: o in c.Repr && o != c ==> o != this && o !in children
    {
      var i :| 0 <= i < |children| && children[i] == c;
      forall j | 0 <= j < |children|
        ensures children[j] in c.Repr ==> j == i
      {
        assert children[j] in children[j].Repr;
      }
    }

    lemma InsideRepr(c: Node)
      requires Valid() && c in children
      ensures c in Repr && c != this && c.Valid() && c.Repr <= Repr - {this} - attributeSet.Repr()
    {
    }

    lemma ChildrenSeparate()
      requires Valid()
      ensures forall c, o :: c in children && o in c.Repr && o != c ==> o != this && o !in children
      ensures forall c :: c in children ==> c in Repr && c.Valid() && c.Repr <= Repr && this !in c.Repr && c != this
    {
      hide Linked, Apart, TreeMatches, OwnsAttributes;
      forall c | c in children
        ensures forall o :: o in c.Repr && o != c ==> o != this && o !in children
        ensures c in Repr && c.Valid() && c.Repr <= Repr && this !in c.Repr && c != this
      {
        TreesMeetNoSibling(c);
        InsideRepr(c);
      }
    }

    lemma Parts()
      requires Valid()
      ensures this in Repr && OwnsAttributes(Repr - {this}) && Linked() && TreeMatches()
      ensures Apart(children, Repr - {this} - attributeSet.Repr())
      ensures forall c :: c in children ==> c in Repr && c != this && c.Valid()
    {
    }

    lemma Whole()
      requires this in Repr && OwnsAttributes(Repr - {this}) && Linked() && TreeMatches()
      requires Apart(children, Repr - {this} - attributeSet.Repr())
      requires forall c :: c in children ==> c in Repr && c != this && c.Valid()
      ensures Valid()
    {
    }

    /** Elements and documents hold children; the value of a document is an element without attributes. */
    predicate IsParent() {
      kind.ElementNode? || kind.DocumentNode?
    }

    ghost function Attrs(): seq<Attr>
      reads attributeSet, attributeSet.nodes`name, attributeSet.nodes`value
    {
      if kind.ElementNode? then attributeSet.Contents() else []
    }

    lemma ElementTree()
      requires IsParent()
      ensures TreeMatches() <==> tree == Element(value, Attrs(), Trees(children))
    {
    }

    lemma AttributesApart(more: set<object>)
      requires OwnsAttributes(Repr - {this})
      ensures attributeSet.Repr() <= Repr - {this}
      ensures OwnsAttributes(Repr + more - {this})
    {
    }

    static lemma SpliceApart(s: seq<Node>, i: nat, j: nat, mid: seq<Node>, R: set<object>, more: set<object>)
      requires i <= j <= |s| && Apart(s, R)
      requires |mid| <= 1
      requires forall c :: c in mid ==> c in c.Repr && c.Repr !! R && c.Repr <= more && !c.kind.DocumentNode?
      ensures Apart(Splice(s, i, j, mid), R + more)
      ensures forall c :: c in Splice(s, i, j, mid) ==> c in s || c in mid
    {
      var t := Splice(s, i, j, mid);
      assert forall k :: 0 <= k < i ==> t[k] == s[k];
      assert |mid| == 1 ==> t[i] == mid[0];
      assert forall k :: i + |mid| <= k < |t| ==> t[k] == s[k - i - |mid| + j];
    }

    static lemma SpliceTrees(s: seq<Node>, i: nat, j: nat, mid: seq<Node>)
      requires i <= j <= |s|
      ensures Trees(Splice(s, i, j, mid)) == Trees(s)[..i] + Trees(mid) + Trees(s)[j..]
    {
      hide Trees;
      var t := Splice(s, i, j, mid);
      assert forall k :: 0 <= k < i ==> t[k] == s[k];
      assert forall k :: i <= k < i + |mid| ==> t[k] == mid[k - i];
      assert forall k :: i + |mid| <= k < |t| ==> t[k] == s[k - i - |mid| + j];
    }

    /** Brings the ghost fields up to date with a changed list of children. */
    ghost method Adopt(more: set<object>)
      requires this in Repr && this !in more && OwnsAttributes(Repr - {this}) && Linked()
      requires IsParent() && tree.Element? && tree.name == value && tree.attrs == Attrs()
      requires Apart(children, Repr + more - {this} - attributeSet.Repr())
      requires forall c :: c in children ==> c in Repr + more && this !in c.Repr && c != this && c.Valid()
      modifies this`Repr, this`tree
      ensures Valid() && Repr == old(Repr) + more
      ensures tree == old(tree).(children := Trees(children))
    {
      hide Linked, Apart, Valid, TreeMatches, OwnsAttributes, Trees, Attrs;
      AttributesApart(more);
      tree := tree.(children := Trees(children));
      Repr := Repr + more;
      ElementTree();
      Whole();
    }

    static lemma ApartIn(s: seq<Node>, R: set<object>, R': set<object>)
      requires Apart(s, R) && R <= R'
      ensures Apart(s, R')
    {
    }

    /** SetAttribute: finds or creates the attribute and sets its value. */
    method SetAttribute(name: string, attrValue: string)
      requires Valid() && kind.ElementNode?
      modifies this`Repr, this`tree, attributeSet.Repr()
      ensures Valid() && old(Repr) <= Repr && fresh(Repr - old(Repr))
      ensures tree == old(tree).(attrs := SetAttr(old(tree.attrs), CStr(name), CStr(attrValue)))
    {
      hide *;
      Parts();
      ElementTree();
      AttributesApart({});
      ChildrenOffAttributes();
      label before:
      attributeSet.Set(name, attrValue);
      forall c | c in children
        ensures c.Valid()
      {
        Kept@before(c);
      }
      AttributesChanged(old(Repr), old(attributeSet.Repr()));
    }

    /** Links an attribute the parser has read, whose name it has looked for. */
    method AddAttribute(attrib: Attribute)
      requires Valid() && kind.ElementNode? && attrib !in Repr
      requires '\0' !in attrib.name && !HasName(tree.attrs, attrib.name)
      modifies this`Repr, this`tree, attributeSet.Repr(), attrib`next, attrib`prev
      ensures Valid() && Repr == old(Repr) + {attrib}
      ensures tree == old(tree).(attrs := old(tree.attrs) + [attrib.Pair()])
    {
      hide *;
      Parts();
      ElementTree();
      AttributesApart({});
      ChildrenOffAttributes();
      label before:
      attributeSet.AddNew(attrib);
      forall c | c in children
        ensures c.Valid()
      {
        Kept@before(c);
      }
      AttributesChanged(old(Repr), old(attributeSet.Repr()));
    }

    /** Gives the node the value the parser has read for it. */
    method SetParsed(v: string, isCData: bool)
      requires Valid()
      modifies this`value, this`cdata, this`tree
      ensures Valid() && Repr == old(Repr)
      ensures IsParent() ==> tree == old(tree).(name := v)
      ensures !IsParent() ==> tree == NewTree(kind, v, isCData)
    {
      hide *;
      Parts();
      TreeForm();
      ChildrenSeparate();
      value, cdata := v, isCData;
      tree := if IsParent() then tree.(name := v) else NewTree(kind, v, isCData);
      TreeForm();
      Whole();
    }

    lemma TreeForm()
      ensures IsParent() ==> (TreeMatches() <==> tree == Element(value, Attrs(), Trees(children)))
      ensures !IsParent() ==> (TreeMatches() <==> tree == NewTree(kind, value, cdata) && children == [])
    {
      if IsParent() { ElementTree(); } else { LeafTree(); }
    }

    lemma LeafTree()
      requires !IsParent()
      ensures TreeMatches() <==> tree == NewTree(kind, value, cdata) && children == []
    {
    }

    lemma ChildrenOffAttributes()
      requires Valid()
      ensures forall c :: c in children ==> c in Repr && c.Valid() && c.Repr <= Repr && c.Repr !! attributeSet.Repr()
      ensures forall c :: c in children ==> this !in c.Repr && c != this
    {
      hide Linked, TreeMatches, OwnsAttributes;
      forall c | c in children
        ensures c in Repr && c.Valid() && c.Repr <= Repr && c.Repr !! attributeSet.Repr()
        ensures this !in c.Repr && c != this
      {
        InsideRepr(c);
      }
    }

    lemma OwnsNow(R: set<object>)
      requires this in R && this !in attributeSet.Repr() && attributeSet.Valid()
      ensures OwnsAttributes(R + attributeSet.Repr() - {this}) && attributeSet.Repr() <= R + attributeSet.Repr()
      ensures kind.ElementNode? ==> IsParent() && Attrs() == attributeSet.Contents()
    {
    }

    /** Brings the ghost fields up to date with a changed set of attributes. */
    ghost method AttributesChanged(R: set<object>, A: set<object>)
      requires Repr == R && this in R && this !in attributeSet.Repr() && A <= attributeSet.Repr()
      requires attributeSet.Valid() && Linked() && (attributeSet.Repr() - A) !! R
      requires kind.ElementNode? && tree.Element? && tree.name == value && tree.children == Trees(children)
      requires Apart(children, R - {this} - A)
      requires forall c :: c in children ==> c in Repr && this !in c.Repr && c != this && c.Valid()
      modifies this`Repr, this`tree
      ensures Valid() && Repr == R + attributeSet.Repr()
      ensures tree == old(tree).(attrs := attributeSet.Contents())
    {
      hide *;
      OwnsNow(R);
      Repr := R + attributeSet.Repr();
      tree := tree.(attrs := attributeSet.Contents());
      ElementTree();
      ApartIn(children, R - {this} - A, Repr - {this} - attributeSet.Repr());
      Whole();
    }

    /** What the list is after a list operation at the k-th child. */
    static ghost function Placed(s: seq<Node>, op: ListOp, k: nat, node: Node): seq<Node>
      requires k <= |s| && (op != AtEnd ==> k < |s|)
    {
      Splice(s, From(op, k, |s|), To(op, k, |s|), [node])
    }

    /** The list operations on children that are trees: they stay so, with the values they had. */
    method LinkTree(op: ListOp, at: Node?, ghost k: nat, node: Node)
      requires Valid() && node.Valid() && Repr !! node.Repr && (node.parent == null || node.parent == this)
      requires !node.kind.DocumentNode?
      requires k <= |children| && (op != AtEnd ==> k < |children| && children[k] == at)
      modifies this`firstChild, this`lastChild, this`children, children`next, children`prev
      modifies node`parent, node`prev, node`next
      ensures Linked() && children == old(Placed(children, op, k, node)) && node.parent == this
      ensures forall c :: c in old(children) || c == node ==> c.Valid() && this !in c.Repr && c != this
    {
      hide Linked, Apart, Valid, TreeMatches, OwnsAttributes, Placed;
      Parts();
      ChildrenSeparate();
      ghost var kids := children;
      label before:
      LinkAt(op, at, k, node);
      forall c | c in kids || c == node
        ensures c.Valid()
      {
        Kept@before(c);
      }
    }

    method LinkAt(op: ListOp, at: Node?, ghost k: nat, node: Node)
      requires Linked() && node != this && node !in children && !node.kind.DocumentNode?
      requires node.parent == null || node.parent == this
      requires k <= |children| && (op != AtEnd ==> k < |children| && children[k] == at)
      modifies this`firstChild, this`lastChild, this`children, children`next, children`prev
      modifies node`parent, node`prev, node`next
      ensures Linked() && children == old(Placed(children, op, k, node)) && node.parent == this
    {
      hide Linked, Splice;
      AtEndSplice(children, node);
      match op {
        case AtEnd => var _ := LinkEndChild(node);
        case Before => LinkBefore(at, node, k);
        case After => LinkAfter(at, node, k);
        case Instead => LinkInstead(at, node, k);
      }
    }

    /** A list operation on a node of a tree, with a tree of its own as the new child. */
    method Insert(op: ListOp, at: Node?, ghost k: nat, node: Node)
      requires Valid() && node.Valid() && Repr !! node.Repr && (node.parent == null || node.parent == this)
      requires IsParent() && !node.kind.DocumentNode? && k <= |children| && (op != AtEnd ==> k < |children| && children[k] == at)
      modifies this`firstChild, this`lastChild, this`children, this`Repr, this`tree, children`next, children`prev
      modifies node`parent, node`prev, node`next
      ensures Valid() && Repr == old(Repr) + node.Repr && node.Valid() && node.parent == this
      ensures children == old(Placed(children, op, k, node))
      ensures tree == TreeWith(old(tree), op, k, node.tree)
    {
      hide Linked, Apart, Valid, TreeMatches, OwnsAttributes, Trees, Splice, Attrs;
      Parts();
      ElementTree();
      AttributesApart({});
      ghost var kids, i, j := children, From(op, k, |children|), To(op, k, |children|);
      ghost var R := Repr - {this} - attributeSet.Repr();
      LinkTree(op, at, k, node);
      SpliceApart(kids, i, j, [node], R, node.Repr);
      assert R + node.Repr == Repr + node.Repr - {this} - attributeSet.Repr();
      Adopt(node.Repr);
      SpliceTrees(kids, i, j, [node]);
      TreesOne(node);
    }

    static lemma TreesOne(node: Node)
      ensures Trees([node]) == [node.tree]
    {
    }

    static lemma AtEndSplice(s: seq<Node>, node: Node)
      ensures Splice(s, |s|, |s|, [node]) == s + [node]
    {
    }

    /** LinkEndChild on a node of a tree, with a tree of its own as the new child. */
    method Append(node: Node) returns (r: Node?)
      requires Valid() && node.Valid() && Repr !! node.Repr && IsParent()
      requires node.parent == null || node.parent == this
      modifies this`firstChild, this`lastChild, this`children, this`Repr, this`tree, children`next, children`prev
      modifies node`parent, node`prev, node`next
      ensures Valid() && (r == null <==> node.kind.DocumentNode?)
      ensures r == null ==> Repr == old(Repr) && tree == old(tree) && children == old(children)
      ensures r != null ==>
        r == node && node.parent == this && Repr == old(Repr) + node.Repr && children == old(children) + [node] &&
        tree == old(tree).(children := old(tree.children) + [node.tree])
    {
      hide Valid, Splice;
      if node.kind.DocumentNode? {
        r := RefuseDocument(node);
        return;
      }
      AtEndSplice(children, node);
      Insert(AtEnd, null, 0, node);
      return node;
    }

    method RefuseDocument(node: Node) returns (r: Node?)
      requires Valid() && node.Valid() && Repr !! node.Repr && node.kind.DocumentNode?
      requires node.parent == null || node.parent == this
      modifies this`firstChild, this`lastChild, this`children, children`next, children`prev
      modifies node`parent, node`prev, node`next
      ensures Valid() && r == null && children == old(children)
    {
      hide Linked, Apart, Valid, TreeMatches, OwnsAttributes, Trees;
      Parts();
      ChildrenSeparate();
      r := LinkEndChild(node);
    }

    // ---------- copying ----------

    /** A new tree with the value of this one, as far as C strings and the walk over the attributes carry it. */
    method Clone() returns (copy: Node)
      requires Valid()
      ensures copy.Valid() && fresh(copy.Repr) && copy.kind == kind
      ensures copy.parent == null && copy.tree == Copied(tree)
      decreases Repr, 3
    {
      hide *;
      ValueOf();
      copy := new Node(kind, value, cdata);
      ParentKinds();
      copy.ParentKinds();
      if kind.ElementNode? {
        CopyAttributesTo(copy);
      }
      if kind.ElementNode? || kind.DocumentNode? {
        CopyChildrenTo(copy);
        CopiedElement(tree);
        if kind.DocumentNode? { DocumentAttrs(); }
      } else {
        CopiedLeaf(kind, value, cdata);
      }
    }

    lemma ParentKinds()
      ensures IsParent() <==> kind.ElementNode? || kind.DocumentNode?
    {
    }

    lemma DocumentAttrs()
      requires Valid() && kind.DocumentNode?
      ensures tree.attrs == [] && CopyAttrs(tree.attrs, Visited(tree.attrs)) == []
    {
    }

    lemma ValueOf()
      requires Valid()
      ensures kind.ElementNode? || kind.DocumentNode? ==> tree.name == value
      ensures !kind.ElementNode? && !kind.DocumentNode? ==> tree == NewTree(kind, value, cdata)
      ensures kind.ElementNode? || kind.DocumentNode? ==> forall v, c :: NewTree(kind, v, c) == Element(v, [], [])
    {
    }

    static lemma CopiedElement(t: Tree)
      requires t.Element?
      ensures Copied(t) == Element(CStr(t.name), CopyAttrs(t.attrs, Visited(t.attrs)), CopiedAll(t.children))
    {
    }

    static lemma CopiedLeaf(kind: Kind, value: string, cdata: bool)
      requires !kind.DocumentNode? && !kind.ElementNode?
      ensures Copied(NewTree(kind, value, cdata)) == NewTree(kind, CStr(value), cdata)
    {
    }

    method CopyAttributesTo(target: Node)
      requires Valid() && kind.ElementNode? && target.Valid() && target.kind.ElementNode?
      requires Repr !! target.Repr && target.tree.attrs == []
      modifies target.Repr
      ensures target.Valid() && old(target.Repr) <= target.Repr && fresh(target.Repr - old(target.Repr))
      ensures target.tree == old(target.tree).(attrs := CopyAttrs(tree.attrs, Visited(tree.attrs)))
      ensures target.parent == old(target.parent)
      decreases Repr, 0
    {
      hide *;
      AttributesOf();
      ghost var attrs, k, t := tree.attrs, 0, target.tree;
      CopyAttrsUnfold(attrs, 0);
      var a := attributeSet.First();
      while a != null
        invariant Valid() && target.Valid() && Repr !! target.Repr && attributeSet.WalkAt(a, k)
        invariant old(target.Repr) <= target.Repr && fresh(target.Repr - old(target.Repr))
        invariant tree.attrs == attrs && target.parent == old(target.parent)
        invariant k <= |attrs| && target.tree == Element(t.name, CopyAttrs(attrs, k), t.children)
        decreases |attrs| - k, if a == null then 0 else 1
      {
        AttributesOf();
        attributeSet.WalkFacts(a, k);
        a := CopyAttribute(a, k, target);
        CopyAttrsUnfold(attrs, k + 1);
        k := k + 1;
      }
      AttributesOf();
      attributeSet.WalkFacts(a, k);
    }

    static lemma CopyAttrsUnfold(attrs: seq<Attr>, k: nat)
      requires k <= |attrs|
      ensures CopyAttrs(attrs, k) ==
              if k == 0 then []
              else SetAttr(CopyAttrs(attrs, k - 1), CStr(attrs[k - 1].name), CStr(attrs[k - 1].value))
    {
    }

    method CopyAttribute(a: Attribute, ghost k: nat, target: Node) returns (next: Attribute?)
      requires Valid() && kind.ElementNode? && target.Valid() && target.kind.ElementNode? && Repr !! target.Repr
      requires k < |attributeSet.nodes| && a == attributeSet.nodes[k] && attributeSet.WalkAt(a, k)
      modifies target.Repr
      ensures Valid() && Repr == old(Repr) && Repr !! target.Repr && tree == old(tree)
      ensures target.Valid() && old(target.Repr) <= target.Repr && fresh(target.Repr - old(target.Repr))
      ensures k < |tree.attrs| && target.parent == old(target.parent) && attributeSet.WalkAt(next, k + 1)
      ensures target.tree == old(target.tree).(attrs :=
                SetAttr(old(target.tree.attrs), CStr(tree.attrs[k].name), CStr(tree.attrs[k].value)))
    {
      hide *;
      a.PairFields();
      AttributesOf();
      target.AttributesOf();
      assert tree.attrs[k] == a.Pair();
      next := attributeSet.NextInWalk(a, k);
      target.SetAttribute(a.name, a.value);
    }

    lemma AttributesOf()
      requires Valid() && kind.ElementNode?
      ensures attributeSet.Valid() && tree.attrs == attributeSet.Contents()
      ensures attributeSet.Repr() <= Repr && this !in attributeSet.Repr()
      ensures attributeSet.Ring() && LooksLikeSentinel(attributeSet.sentinel.Pair())
    {
    }

    method CopyChildrenTo(target: Node)
      requires Valid() && IsParent() && target.Valid() && target.IsParent()
      requires Repr !! target.Repr && target.tree.children == []
      modifies target.Repr
      ensures target.Valid() && fresh(target.Repr - old(target.Repr))
      ensures target.tree == old(target.tree).(children := CopiedAll(tree.children))
      ensures target.parent == old(target.parent)
      decreases Repr, 2
    {
      hide Valid, Linked, Apart, TreeMatches, OwnsAttributes, Trees, Copied;
      ghost var trees, i := tree.children, 0;
      ChildrenOf(0);
      var node := firstChild;
      while node != null
        invariant Valid() && target.Valid() && Repr !! target.Repr
        invariant fresh(target.Repr - old(target.Repr)) && target.parent == old(target.parent)
        invariant i <= |children| && |trees| == |children| && node == At(children, i)
        invariant target.tree == old(target.tree).(children := CopiedAll(trees[..i]))
        decreases |children| - i
      {
        ChildrenOf(i);
        CopyChild(node, target);
        ChildrenOf(i);
        node := node.next;
        assert trees[..i + 1][..i] == trees[..i];
        i := i + 1;
      }
      assert trees[..i] == trees;
    }

    /** LinkEndChild( node->Clone() ) on the target. */
    method CopyChild(node: Node, target: Node)
      requires Valid() && node.Valid() && node.Repr < Repr && Repr !! target.Repr && !node.kind.DocumentNode?
      requires target.Valid() && target.IsParent()
      modifies target.Repr
      ensures Valid() && target.Valid() && Repr == old(Repr) && Repr !! target.Repr
      ensures fresh(target.Repr - old(target.Repr)) && target.parent == old(target.parent)
      ensures target.tree == old(target.tree).(children := old(target.tree.children) + [Copied(node.tree)])
      decreases Repr, 1
    {
      hide Valid, Copied;
      var copy := node.Clone();
      assert target.Repr !! copy.Repr && Repr !! copy.Repr;
      target.AppendCopy(copy);
    }

    lemma ChildrenOf(i: nat)
      requires Valid() && IsParent()
      ensures |children| == |tree.children| && firstChild == At(children, 0)
      ensures i < |children| ==>
        children[i].Valid() && children[i].tree == tree.children[i] && children[i].next == At(children, i + 1) &&
        children[i] in Repr && children[i].Repr < Repr && children[i] in children && !children[i].kind.DocumentNode?
    {
    }

    lemma ChildrenInside()
      requires Valid()
      ensures this in Repr && forall c :: c in children ==> c in Repr && c != this
    {
    }

    /** Append, seen from outside: only the tree of this node changes. */
    method AppendCopy(copy: Node)
      requires Valid() && copy.Valid() && Repr !! copy.Repr && IsParent() && !copy.kind.DocumentNode?
      requires copy.parent == null || copy.parent == this
      modifies Repr, copy`parent, copy`prev, copy`next
      ensures Valid() && Repr == old(Repr) + copy.Repr && parent == old(parent) && next == old(next) && prev == old(prev)
      ensures tree == old(tree).(children := old(tree.children) + [copy.tree])
    {
      ChildrenSeparate();
      var _ := Append(copy);
    }

    // ---------- list operations that copy the node to insert ----------

    /** Whether the list operation at this child is refused. */
    predicate Refuses(at: Node?, addThis: Node)
      reads at
    {
      at == null || at.parent != this || addThis.kind.DocumentNode?
    }

    method InsertBeforeChild(beforeThis: Node?, addThis: Node, ghost k: nat) returns (r: Node?)
      requires InsertPre(beforeThis, addThis, k)
      modifies this`firstChild, this`lastChild, this`children, this`Repr, this`tree, children`next, children`prev
      ensures Valid() && (r == null <==> old(Refuses(beforeThis, addThis)))
      ensures r == null ==> tree == old(tree) && children == old(children) && Repr == old(Repr)
      ensures r != null ==>
        fresh(r.Repr) && Repr == old(Repr) + r.Repr && r.Valid() && r.parent == this && r.tree == Copied(old(addThis.tree)) &&
        k < |old(children)| && children == Placed(old(children), Before, k, r) &&
        tree == TreeWith(old(tree), Before, k, r.tree)
    {
      if beforeThis == null || beforeThis.parent != this || addThis.kind.DocumentNode? {
        return null;
      }
      r := InsertCopy(Before, beforeThis, addThis, k);
    }

    method InsertAfterChild(afterThis: Node?, addThis: Node, ghost k: nat) returns (r: Node?)
      requires InsertPre(afterThis, addThis, k)
      modifies this`firstChild, this`lastChild, this`children, this`Repr, this`tree, children`next, children`prev
      ensures Valid() && (r == null <==> old(Refuses(afterThis, addThis)))
      ensures r == null ==> tree == old(tree) && children == old(children) && Repr == old(Repr)
      ensures r != null ==>
        fresh(r.Repr) && Repr == old(Repr) + r.Repr && r.Valid() && r.parent == this && r.tree == Copied(old(addThis.tree)) &&
        k < |old(children)| && children == Placed(old(children), After, k, r) &&
        tree == TreeWith(old(tree), After, k, r.tree)
    {
      if afterThis == null || afterThis.parent != this || addThis.kind.DocumentNode? {
        return null;
      }
      r := InsertCopy(After, afterThis, addThis, k);
    }

    method ReplaceChild(replaceThis: Node?, withThis: Node, ghost k: nat) returns (r: Node?)
      requires InsertPre(replaceThis, withThis, k)
      modifies this`firstChild, this`lastChild, this`children, this`Repr, this`tree, children`next, children`prev
      ensures Valid() && (r == null <==> old(Refuses(replaceThis, withThis)))
      ensures r == null ==> tree == old(tree) && children == old(children) && Repr == old(Repr)
      ensures r != null ==>
        fresh(r.Repr) && Repr == old(Repr) + r.Repr && r.Valid() && r.parent == this && r.tree == Copied(old(withThis.tree)) &&
        k < |old(children)| && children == Placed(old(children), Instead, k, r) &&
        tree == TreeWith(old(tree), Instead, k, r.tree)
    {
      if replaceThis == null || replaceThis.parent != this || withThis.kind.DocumentNode? {
        return null;
      }
      r := InsertCopy(Instead, replaceThis, withThis, k);
    }

    ghost predicate InsertPre(at: Node?, addThis: Node, k: nat)
      reads *
    {
      Valid() && IsParent() && addThis.Valid() &&
      (at != null && at.parent == this ==> k < |children| && children[k] == at)
    }

    method InsertCopy(op: ListOp, at: Node, addThis: Node, ghost k: nat) returns (r: Node)
      requires Valid() && IsParent() && addThis.Valid() && !addThis.kind.DocumentNode? && op != AtEnd && k < |children| && children[k] == at
      modifies this`firstChild, this`lastChild, this`children, this`Repr, this`tree, children`next, children`prev
      ensures Valid() && fresh(r.Repr) && Repr == old(Repr) + r.Repr && r.Valid() && r.parent == this
      ensures r.tree == Copied(old(addThis.tree))
      ensures children == Placed(old(children), op, k, r)
      ensures tree == TreeWith(old(tree), op, k, r.tree)
    {
      hide Valid, Placed, TreeWith, Copied;
      r := addThis.Clone();
      assert Repr !! r.Repr;
      Insert(op, at, k, r);
    }

    /** RemoveChild on a node of a tree. */
    method Remove(removeThis: Node, ghost k: nat)
      requires Valid() && IsParent() && k < |children| && children[k] == removeThis
      modifies this`firstChild, this`lastChild, this`children, this`Repr, this`tree, children`next, children`prev
      ensures Valid() && Repr == old(Repr) && children == old(Splice(children, k, k + 1, []))
      ensures tree == TreeWithout(old(tree), k)
    {
      hide *;
      Parts();
      ElementTree();
      AttributesApart({});
      ghost var kids, R := children, Repr - {this} - attributeSet.Repr();
      RemoveTree(removeThis, k);
      SpliceApart(kids, k, k + 1, [], R, {});
      assert R + {} == Repr + {} - {this} - attributeSet.Repr();
      Adopt({});
      SpliceTrees(kids, k, k + 1, []);
      WithoutChild(old(tree), k, Trees([]));
    }

    static lemma WithoutChild(t: Tree, k: nat, none: seq<Tree>)
      requires none == Trees([])
      ensures t.Element? && k < |t.children| ==>
        TreeWithout(t, k) == t.(children := t.children[..k] + none + t.children[k + 1..])
    {
    }

    method RemoveTree(removeThis: Node, ghost k: nat)
      requires Valid() && k < |children| && children[k] == removeThis
      modifies this`firstChild, this`lastChild, this`children, children`next, children`prev
      ensures Linked() && children == old(Splice(children, k, k + 1, []))
      ensures forall c :: c in old(children) ==> c.Valid() && this !in c.Repr && c != this
    {
      hide Linked, Apart, Valid, TreeMatches, OwnsAttributes, Splice;
      Parts();
      ChildrenSeparate();
      ghost var kids := children;
      Neighbours(k);
      label before:
      var _ := RemoveChild(removeThis, k);
      forall c | c in kids
        ensures c.Valid()
      {
        Kept@before(c);
      }
    }
  }

  /** Where a new child goes: last, next to the k-th child, or in its place. */
  datatype ListOp = AtEnd | Before | After | Instead

  function From(op: ListOp, k: nat, n: nat): nat {
    match op
    case AtEnd => n
    case After => k + 1
    case Before => k
    case Instead => k
  }

  function To(op: ListOp, k: nat, n: nat): nat {
    if op == Before then k else if op == AtEnd then n else k + 1
  }

  /** The tree t after a list operation with the child tree c. */
  function TreeWith(t: Tree, op: ListOp, k: nat, c: Tree): Tree {
    if !t.Element? || From(op, k, |t.children|) > To(op, k, |t.children|) || To(op, k, |t.children|) > |t.children| then t
    else t.(children := t.children[..From(op, k, |t.children|)] + [c] + t.children[To(op, k, |t.children|)..])
  }

  /** The tree t without its k-th child. */
  function TreeWithout(t: Tree, k: nat): Tree {
    if !t.Element? || k >= |t.children| then t
    else t.(children := t.children[..k] + t.children[k + 1..])
  }

  ghost function Trees(s: seq<Node>): (r: seq<Tree>)
    reads s`tree
    ensures |r| == |s| && forall i :: 0 <= i < |r| ==> r[i] == s[i].tree
  {
    if s == [] then [] else Trees(s[..|s| - 1]) + [s[|s| - 1].tree]
  }

  function NewTree(kind: Kind, value: string, cdata: bool): Tree {
    match kind
    case DocumentNode => Element(value, [], [])
    case ElementNode => Element(value, [], [])
    case TextNode => Text(value, cdata)
    case CommentNode => Comment(value)
    case UnknownNode => Unknown(value)
  }
}
