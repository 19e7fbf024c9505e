/** TiXmlAttributeSet: a circular doubly linked list of attributes around a sentinel. */
module XmlAttributes {
  import opened XmlText
  import opened XmlTree

  class Attribute {
    var name: string
    var value: string
    var prev: Attribute?
    var next: Attribute?

    constructor ()
      ensures name == "" && value == "" && prev == null && next == null
    {
      name, value, prev, next := "", "", null, null;
    }

    function Pair(): Attr
      reads this`name, this`value
    {
      Attr(name, value)
    }

    lemma PairFields()
      ensures Pair() == Attr(name, value)
    {
    }

    method SetName(n: string)
      modifies this`name
      ensures name == CStr(n)
    {
      name := CStr(n);
    }

    method SetValue(v: string)
      modifies this`value
      ensures value == CStr(v)
    {
      value := CStr(v);
    }

    /** The successor, unless it looks like the sentinel. */
    method Next() returns (r: Attribute?)
      requires next != null
      ensures r == if LooksLikeSentinel(next.Pair()) then null else next
    {
      if next.value == "" && next.name == "" {
        return null;
      }
      return next;
    }
  }

  ghost function Pairs(s: seq<Attribute>): (r: seq<Attr>)
    reads s`name, s`value
    ensures |r| == |s| && forall i :: 0 <= i < |s| ==> r[i] == s[i].Pair()
  {
    if s == [] then [] else Pairs(s[..|s| - 1]) + [s[|s| - 1].Pair()]
  }

  function Without<T>(s: seq<T>, k: nat): seq<T>
    requires k < |s|
  {
    s[..k] + s[k + 1..]
  }

  lemma WithoutIsPart<T>(s: seq<T>, k: nat)
    requires k < |s|
    ensures forall x :: x in Without(s, k) ==> x in s
  {
  }

  lemma PairsWithout(s: seq<Attribute>, k: nat)
    requires k < |s|
    ensures Pairs(Without(s, k)) == Without(Pairs(s), k)
  {
    hide Pairs;
    var a, b := Pairs(Without(s, k)), Without(Pairs(s), k);
    forall i | 0 <= i < |a|
      ensures a[i] == b[i]
    {
      assert Without(s, k)[i] == s[if i < k then i else i + 1];
    }
  }

  /** Names come from C strings and no name is held twice. */
  predicate UsableNames(attrs: seq<Attr>) {
    UniqueNames(attrs) && forall i :: 0 <= i < |attrs| ==> '\0' !in attrs[i].name
  }

  lemma UsableWithout(attrs: seq<Attr>, k: nat)
    requires k < |attrs| && UsableNames(attrs)
    ensures UsableNames(Without(attrs, k))
  {
  }

  lemma UsableWith(attrs: seq<Attr>, a: Attr)
    requires UsableNames(attrs) && !HasName(attrs, a.name) && '\0' !in a.name
    ensures UsableNames(attrs + [a])
  {
  }

  lemma PairsWith(s: seq<Attribute>, a: Attribute)
    ensures Pairs(s + [a]) == Pairs(s) + [a.Pair()]
  {
    assert (s + [a])[..|s|] == s;
  }

  class AttributeSet {
    const sentinel: Attribute
    ghost var nodes: seq<Attribute>

    ghost function Repr(): (s: set<object>)
      reads this
      ensures this in s && sentinel in s && forall a :: a in nodes ==> a in s
    {
      {this, sentinel} + set a | a in nodes
    }

    /** The links alone: next and prev run around the ring of the sentinel and the nodes. */
    ghost predicate Ring()
      reads this, sentinel`next, sentinel`prev, nodes`next, nodes`prev
    {
      Distinct(nodes) && Forward(nodes) && Backward(nodes)
    }

    ghost predicate Distinct(s: seq<Attribute>) {
      (forall i, j :: 0 <= i < j < |s| ==> s[i] != s[j]) && forall i :: 0 <= i < |s| ==> s[i] != sentinel
    }

    ghost predicate Forward(s: seq<Attribute>)
      reads sentinel`next, s`next
    {
      sentinel.next == At(s, 0) &&
      forall i {:trigger s[i].next} :: 0 <= i < |s| ==> s[i].next == At(s, i + 1)
    }

    ghost predicate Backward(s: seq<Attribute>)
      reads sentinel`prev, s`prev
    {
      sentinel.prev == At(s, |s| - 1) &&
      forall i {:trigger s[i].prev} :: 0 <= i < |s| ==> s[i].prev == At(s, i - 1)
    }

    /** The i-th attribute; the sentinel stands at both ends. */
    ghost function At(s: seq<Attribute>, i: int): Attribute {
      if 0 <= i < |s| then s[i] else sentinel
    }

    /** A ring in which no name is held twice; names come from C strings. */
    ghost predicate Valid()
      reads this, sentinel, nodes
    {
      Ring() && LooksLikeSentinel(sentinel.Pair()) && UsableNames(Contents())
    }

    ghost function Contents(): (s: seq<Attr>)
      reads this, nodes`name, nodes`value
      ensures |s| == |nodes| && forall i :: 0 <= i < |s| ==> s[i] == nodes[i].Pair()
    {
      Pairs(nodes)
    }

    constructor ()
      ensures Valid() && nodes == [] && fresh(Repr())
    {
      sentinel := new Attribute();
      nodes := [];
      new;
      sentinel.next := sentinel;
      sentinel.prev := sentinel;
    }

    method First() returns (r: Attribute?)
      requires Ring()
      ensures r == (if nodes == [] then null else nodes[0]) && WalkAt(r, 0)
    {
      if sentinel.next == sentinel {
        return null;
      }
      return sentinel.next;
    }

    /** The walk stands at node k of the set, or has ended after k nodes. */
    ghost predicate WalkAt(a: Attribute?, k: nat)
      reads this, nodes`name, nodes`value
    {
      if a == null then k == Visited(Contents())
      else k < |nodes| && a == nodes[k] && Visited(Contents()) == VisitedFrom(Contents(), k + 1)
    }

    lemma WalkFacts(a: Attribute?, k: nat)
      requires WalkAt(a, k)
      ensures if a == null then k == Visited(Contents()) else k < |nodes| && a == nodes[k]
    {
    }

    /** One step of a walk. */
    method NextInWalk(a: Attribute, ghost k: nat) returns (r: Attribute?)
      requires Ring() && LooksLikeSentinel(sentinel.Pair()) && WalkAt(a, k)
      ensures WalkAt(r, k + 1)
    {
      assert a.next == At(nodes, k + 1);
      r := a.Next();
    }

    /** The walk by First and Next that the printer and the copier make. */
    method Walk() returns (seen: seq<Attr>)
      requires Ring() && LooksLikeSentinel(sentinel.Pair())
      ensures seen == Contents()[..Visited(Contents())]
    {
      hide *;
      seen := [];
      var a := First();
      while a != null
        invariant |seen| <= |nodes| && seen == Contents()[..|seen|] && WalkAt(a, |seen|)
        decreases |nodes| - |seen|, if a == null then 0 else 1
      {
        WalkFacts(a, |seen|);
        a.PairFields();
        assert Contents()[|seen|] == a.Pair();
        var next := NextInWalk(a, |seen|);
        seen := seen + [Attr(a.name, a.value)];
        a := next;
      }
      WalkFacts(a, |seen|);
    }

    /** Links an attribute in front of the sentinel. */
    method Add(addMe: Attribute)
      requires Ring() && addMe !in nodes && addMe != sentinel
      modifies this`nodes, addMe`next, addMe`prev, At(nodes, |nodes| - 1)`next, sentinel`prev
      ensures Ring() && nodes == old(nodes) + [addMe]
      ensures Contents() == old(Contents()) + [addMe.Pair()]
    {
      addMe.next := sentinel;
      addMe.prev := sentinel.prev;
      sentinel.prev.next := addMe;
      sentinel.prev := addMe;
      nodes := nodes + [addMe];
    }

    /** Unlinks the k-th attribute of the set; the source asserts that it finds it. */
    method Remove(removeMe: Attribute, ghost k: nat)
      requires Valid() && k < |nodes| && nodes[k] == removeMe
      modifies this`nodes, removeMe`next, removeMe`prev, At(nodes, k - 1)`next, At(nodes, k + 1)`prev
      ensures Valid() && nodes == old(Without(nodes, k))
      ensures Contents() == old(Without(Contents(), k))
      ensures removeMe.next == null && removeMe.prev == null
    {
      var node := sentinel.next;
      ghost var i := 0;
      while node != sentinel
        invariant 0 <= i <= k && node == nodes[i]
        decreases k - i
      {
        if node == removeMe {
          RemoveAt(node, k);
          return;
        }
        node := node.next;
        i := i + 1;
      }
    }

    method RemoveAt(node: Attribute, ghost k: nat)
      requires Valid() && k < |nodes| && nodes[k] == node
      modifies this`nodes, node`next, node`prev, At(nodes, k - 1)`next, At(nodes, k + 1)`prev
      ensures Valid() && nodes == old(Without(nodes, k))
      ensures Contents() == old(Without(Contents(), k))
      ensures node.next == null && node.prev == null
    {
      hide Ring, Pairs, Without, UsableNames;
      PairsWithout(nodes, k);
      UsableWithout(Contents(), k);
      WithoutIsPart(nodes, k);
      ghost var rest := Without(nodes, k);
      Unlink(node, k);
      assert Pairs(rest) == old(Pairs(Without(nodes, k)));
    }

    method Unlink(node: Attribute, ghost k: nat)
      requires Ring() && k < |nodes| && nodes[k] == node
      modifies this`nodes, node`next, node`prev, At(nodes, k - 1)`next, At(nodes, k + 1)`prev
      ensures Ring() && nodes == old(Without(nodes, k))
      ensures node.next == null && node.prev == null
    {
      hide Forward, Backward;
      ghost var rest := Without(nodes, k);
      assert Distinct(rest) && node !in rest;
      BypassNext(node, k);
      BypassPrev(node, k);
      node.next := null;
      node.prev := null;
      nodes := rest;
    }

    method BypassNext(node: Attribute, ghost k: nat)
      requires Ring() && k < |nodes| && nodes[k] == node
      modifies At(nodes, k - 1)`next
      ensures Forward(Without(nodes, k)) && node.next == At(nodes, k + 1)
    {
      assert node.prev == At(nodes, k - 1);
      node.prev.next := node.next;
      ghost var rest := Without(nodes, k);
      assert forall i :: 0 <= i < |rest| ==> rest[i] == nodes[if i < k then i else i + 1];
    }

    method BypassPrev(node: Attribute, ghost k: nat)
      requires Distinct(nodes) && Backward(nodes) && k < |nodes| && nodes[k] == node
      requires node.next == At(nodes, k + 1)
      modifies At(nodes, k + 1)`prev
      ensures Backward(Without(nodes, k))
    {
      assert node.prev == At(nodes, k - 1);
      node.next.prev := node.prev;
      ghost var rest := Without(nodes, k);
      assert forall i :: 0 <= i < |rest| ==> rest[i] == nodes[if i < k then i else i + 1];
    }

    method Find(name: string) returns (r: Attribute?)
      requires Valid()
      ensures r == if HasName(Contents(), CStr(name)) then nodes[IndexOfName(Contents(), CStr(name))] else null
    {
      var node := sentinel.next;
      ghost var i := 0;
      while node != sentinel
        invariant 0 <= i <= |nodes| && node == At(nodes, i)
        invariant forall k :: 0 <= k < i ==> Contents()[k].name != CStr(name)
        decreases |nodes| - i
      {
        if CStr(node.name) == CStr(name) {
          assert Contents()[i].name == CStr(name);
          return node;
        }
        node := node.next;
        i := i + 1;
      }
      return null;
    }

    /** Nothing changes when the name is there; otherwise an empty attribute of that name comes last. */
    method FindOrCreate(name: string) returns (r: Attribute)
      requires Valid()
      modifies this`nodes, At(nodes, |nodes| - 1)`next, sentinel`prev
      ensures Valid()
      ensures old(HasName(Contents(), CStr(name))) ==>
                nodes == old(nodes) && Contents() == old(Contents()) &&
                r == nodes[IndexOfName(Contents(), CStr(name))]
      ensures !old(HasName(Contents(), CStr(name))) ==>
                fresh(r) && nodes == old(nodes) + [r] && Contents() == old(Contents()) + [Attr(CStr(name), "")]
    {
      var attrib := Find(name);
      if attrib == null {
        attrib := Create(name);
      }
      return attrib;
    }

    method Create(name: string) returns (r: Attribute)
      requires Valid() && !HasName(Contents(), CStr(name))
      modifies this`nodes, At(nodes, |nodes| - 1)`next, sentinel`prev
      ensures Valid() && fresh(r)
      ensures nodes == old(nodes) + [r] && Contents() == old(Contents()) + [Attr(CStr(name), "")]
    {
      hide *;
      ghost var was := nodes;
      ValidParts();
      sentinel.PairFields();
      UsableWith(Contents(), Attr(CStr(name), ""));
      r := new Attribute();
      Add(r);
      r.SetName(name);
      r.PairFields();
      sentinel.PairFields();
      PairsWith(was, r);
      assert Contents() == old(Contents()) + [Attr(CStr(name), "")];
      ValidParts();
    }

    lemma ValidParts()
      ensures Valid() <==> Ring() && LooksLikeSentinel(sentinel.Pair()) && UsableNames(Contents())
      ensures Ring() ==> sentinel !in nodes
    {
    }

    /** SetAttribute: finds or creates the attribute and gives it the value. */
    method Set(name: string, value: string)
      requires Valid()
      modifies Repr()
      ensures Valid() && old(Repr()) <= Repr() && fresh(Repr() - old(Repr()))
      ensures Contents() == SetAttr(old(Contents()), CStr(name), CStr(value))
    {
      hide Ring, Pairs, HasName;
      var attrib := FindOrCreate(name);
      ghost var k := IndexOfName(old(Contents()), CStr(name));
      assert nodes[k] == attrib;
      SetValueAt(attrib, k, value);
    }

    method SetValueAt(attrib: Attribute, ghost k: nat, value: string)
      requires Valid() && k < |nodes| && nodes[k] == attrib
      modifies attrib`value
      ensures Valid() && Contents() == old(Contents())[k := Attr(attrib.name, CStr(value))]
    {
      hide Pairs, Forward, Backward;
      attrib.SetValue(value);
      assert forall i :: 0 <= i < |nodes| && i != k ==> nodes[i] != attrib;
    }

    /** Add as the parser uses it, for an attribute whose name it has looked for. */
    method AddNew(attrib: Attribute)
      requires Valid() && attrib !in Repr() && '\0' !in attrib.name && !HasName(Contents(), attrib.name)
      modifies Repr(), attrib`next, attrib`prev
      ensures Valid() && Repr() == old(Repr()) + {attrib}
      ensures Contents() == old(Contents()) + [attrib.Pair()]
    {
      hide Ring, Pairs, UsableNames, HasName;
      UsableWith(Contents(), attrib.Pair());
      Add(attrib);
    }
  }
}
