/** When a clone is structurally equal to its original. */
module XmlCopied {
  import opened XmlText
  import opened XmlTree
  import opened XmlAttributes
  import opened XmlDom

  /** What attribute sets guarantee throughout a tree. */
  predicate WellNamed(t: Tree) {
    t.Element? ==> UsableNames(t.attrs) && forall i :: 0 <= i < |t.children| ==> WellNamed(t.children[i])
  }

  /** C strings throughout, and no attribute after the first that a walk takes for the sentinel. */
  predicate Faithful(t: Tree) {
    match t
    case Element(name, attrs, children) =>
      '\0' !in name &&
      (forall i :: 0 <= i < |attrs| ==> '\0' !in attrs[i].value) &&
      (forall i :: 1 <= i < |attrs| ==> !LooksLikeSentinel(attrs[i])) &&
      (forall i :: 0 <= i < |children| ==> Faithful(children[i]))
    case Text(text, _) => '\0' !in text
    case Comment(comment) => '\0' !in comment
    case Unknown(tag) => '\0' !in tag
  }

  lemma {:induction false} CopyAttrsIs(attrs: seq<Attr>, k: nat)
    requires UsableNames(attrs) && k <= |attrs|
    ensures |CopyAttrs(attrs, k)| == k
    ensures forall i :: 0 <= i < k ==> CopyAttrs(attrs, k)[i] == Attr(attrs[i].name, CStr(attrs[i].value))
  {
    hide IndexOfName, UsableNames, HasName;
    if k > 0 {
      CopyAttrsIs(attrs, k - 1);
      NewNameLast(attrs, k, CopyAttrs(attrs, k - 1));
    }
  }

  lemma NewNameLast(attrs: seq<Attr>, k: nat, copied: seq<Attr>)
    requires UsableNames(attrs) && 0 < k <= |attrs| && |copied| == k - 1
    requires forall i :: 0 <= i < k - 1 ==> copied[i] == Attr(attrs[i].name, CStr(attrs[i].value))
    ensures CStr(attrs[k - 1].name) == attrs[k - 1].name && IndexOfName(copied, attrs[k - 1].name) == k - 1
  {
    hide IndexOfName;
    assert !HasName(copied, attrs[k - 1].name);
  }

  /** In a tree held by attribute sets, the copy equals the original exactly when the tree is faithful. */
  lemma {:induction false} CopyIsFaithful(t: Tree)
    requires WellNamed(t)
    ensures Copied(t) == t <==> Faithful(t)
  {
    hide CopiedAll, CopyAttrs, UsableNames, Visited, LooksLikeSentinel;
    if t.Element? {
      AttrsFaithful(t.attrs);
      forall i | 0 <= i < |t.children|
        ensures CopiedAll(t.children)[i] == t.children[i] <==> Faithful(t.children[i])
      {
        CopyIsFaithful(t.children[i]);
      }
    }
  }

  lemma AttrsFaithful(attrs: seq<Attr>)
    requires UsableNames(attrs)
    ensures CopyAttrs(attrs, Visited(attrs)) == attrs <==>
            (forall i :: 0 <= i < |attrs| ==> '\0' !in attrs[i].value) &&
            (forall i :: 1 <= i < |attrs| ==> !LooksLikeSentinel(attrs[i]))
  {
    hide CopyAttrs, LooksLikeSentinel;
    var n, c := Visited(attrs), CopyAttrs(attrs, Visited(attrs));
    CopyAttrsIs(attrs, n);
    if n == |attrs| {
      assert c == attrs <==> forall i :: 0 <= i < |attrs| ==> c[i] == attrs[i];
    }
  }

  lemma NoneUnusable()
    ensures UsableNames([])
  {
  }

  /** Every tree of nodes is well named. */
  lemma {:induction false} TreesAreWellNamed(node: Node)
    requires node.Valid()
    ensures WellNamed(node.tree)
    decreases node.Repr
  {
    if node.IsParent() {
      hide Node.Valid, UsableNames;
      if node.kind.ElementNode? {
        node.AttributesOf();
      } else {
        node.DocumentAttrs();
        NoneUnusable();
      }
      assert UsableNames(node.tree.attrs);
      node.ChildrenOf(0);
      forall i | 0 <= i < |node.tree.children|
        ensures WellNamed(node.tree.children[i])
      {
        node.ChildrenOf(i);
        TreesAreWellNamed(node.children[i]);
      }
    }
  }

  /** Clone yields a fresh and disjoint tree, equal to the original exactly when that is faithful. */
  method CloneTree(node: Node) returns (copy: Node)
    requires node.Valid()
    ensures copy.Valid() && fresh(copy.Repr) && node.Valid() && node.tree == old(node.tree)
    ensures copy.tree == node.tree <==> Faithful(node.tree)
  {
    hide Node.Valid, Copied, Faithful, WellNamed;
    TreesAreWellNamed(node);
    CopyIsFaithful(node.tree);
    copy := node.Clone();
  }
}
