/** TiXmlPrinter: a visitor that walks a tree on the heap and appends its text to a buffer. */
module XmlPrinter {
  import opened Wrappers
  import opened XmlText
  import opened XmlTree
  import opened XmlAttributes
  import opened XmlDom
  import opened XmlScanner
  import opened XmlRoundTrip
  import opened XmlParser
  import opened XmlStable

  /** A child as it is printed in simple text mode, or on lines of its own. */
  function PrintOne(t: Tree, depth: nat, style: Style, simple: bool): string {
    if simple then PrintCore(t, depth, style) else PrintNode(t, depth, style)
  }

  function PrintAll(children: seq<Tree>, depth: nat, style: Style, simple: bool): string {
    if children == [] then [] else PrintOne(children[0], depth, style, simple) + PrintAll(children[1..], depth, style, simple)
  }

  /** What VisitEnter writes after the indentation. */
  function Head(t: Tree, style: Style): string
    requires t.Element?
  {
    "<" + CStr(t.name) + PrintAttrs(t.attrs) +
    (if t.children == [] then " />" + style.lineBreak else if IsSimple(t.children) then ">" else ">" + style.lineBreak)
  }

  /** What VisitExit writes. */
  function Tail(t: Tree, depth: nat, style: Style): string
    requires t.Element?
  {
    if t.children == [] then ""
    else (if IsSimple(t.children) then "" else Indent(style, depth)) + ("</" + CStr(t.name) + ">" + style.lineBreak)
  }

  lemma {:induction false} AllAreSiblings(children: seq<Tree>, depth: nat, style: Style)
    ensures PrintAll(children, depth, style, false) == PrintSiblings(children, depth, style)
  {
    hide PrintNode;
    if children != [] {
      AllAreSiblings(children[1..], depth, style);
    }
  }

  /** VisitEnter, the children and VisitExit together print the element. */
  lemma PartsOfElement(t: Tree, depth: nat, style: Style)
    requires t.Element?
    ensures Indent(style, depth) + Head(t, style) + PrintAll(t.children, depth + 1, style, IsSimple(t.children)) +
            Tail(t, depth, style) == PrintNode(t, depth, style)
  {
    hide *;
    var indent, open := Indent(style, depth), "<" + CStr(t.name) + PrintAttrs(t.attrs);
    var all := PrintAll(t.children, depth + 1, style, IsSimple(t.children));
    HeadAndTail(t, depth, style);
    CoreOfElement(t, depth, style);
    if t.children == [] {
      EmptyElement(indent, open, all, style.lineBreak);
    } else if IsSimple(t.children) {
      SimpleElement(indent, open, all, CStr(t.name), style.lineBreak);
    } else {
      LongElement(indent, open, all, CStr(t.name), style.lineBreak);
    }
  }

  lemma HeadAndTail(t: Tree, depth: nat, style: Style)
    requires t.Element?
    ensures Head(t, style) ==
            "<" + CStr(t.name) + PrintAttrs(t.attrs) +
            (if t.children == [] then " />" + style.lineBreak
             else if IsSimple(t.children) then ">" else ">" + style.lineBreak)
    ensures Tail(t, depth, style) ==
            if t.children == [] then ""
            else (if IsSimple(t.children) then "" else Indent(style, depth)) + ("</" + CStr(t.name) + ">" + style.lineBreak)
    ensures t.children == [] ==> PrintAll(t.children, depth + 1, style, IsSimple(t.children)) == ""
  {
  }

  lemma CoreOfElement(t: Tree, depth: nat, style: Style)
    requires t.Element?
    ensures var all := PrintAll(t.children, depth + 1, style, IsSimple(t.children));
            PrintNode(t, depth, style) == Indent(style, depth) +
              ("<" + CStr(t.name) + PrintAttrs(t.attrs) +
               (if t.children == [] then " />"
                else ">" + (if IsSimple(t.children) then all else style.lineBreak + all + Indent(style, depth)) +
                     "</" + CStr(t.name) + ">")) + style.lineBreak
  {
    hide PrintAttrs, PrintSiblings, Indent, CStr;
    if IsSimple(t.children) {
      AllOfOne(t.children, depth + 1, style);
      hide PrintAll;
      assert PrintContent(t.children, depth, style) == PrintAll(t.children, depth + 1, style, true);
    } else {
      AllAreSiblings(t.children, depth + 1, style);
      hide PrintAll;
      assert PrintContent(t.children, depth, style) ==
        style.lineBreak + PrintAll(t.children, depth + 1, style, false) + Indent(style, depth);
    }
  }

  lemma AllOfOne(children: seq<Tree>, depth: nat, style: Style)
    requires |children| == 1
    ensures PrintAll(children, depth, style, true) == PrintCore(children[0], depth, style)
  {
    hide PrintCore;
    var text := PrintCore(children[0], depth, style);
    assert PrintAll(children[1..], depth, style, true) == [];
    assert text + [] == text;
  }

  lemma EmptyElement(indent: string, open: string, all: string, end: string)
    requires all == ""
    ensures indent + (open + (" />" + end)) + all + "" == indent + (open + " />") + end
  {
  }

  lemma SimpleElement(indent: string, open: string, text: string, name: string, end: string)
    ensures indent + (open + ">") + text + ("" + ("</" + name + ">" + end)) ==
            indent + (open + (">" + text + "</" + name + ">")) + end
  {
  }

  lemma LongElement(indent: string, open: string, all: string, name: string, end: string)
    ensures indent + (open + (">" + end)) + all + (indent + ("</" + name + ">" + end)) ==
            indent + (open + (">" + (end + all + indent) + "</" + name + ">")) + end
  {
  }

  class Printer {
    var buffer: string
    var depth: nat
    var simpleTextPrint: bool
    var indent: string
    var lineBreak: string

    constructor ()
      ensures buffer == "" && depth == 0 && !simpleTextPrint && indent == "    " && lineBreak == "\n"
    {
      buffer, depth, simpleTextPrint, indent, lineBreak := "", 0, false, "    ", "\n";
    }

    method SetStreamPrinting()
      modifies this`indent, this`lineBreak
      ensures Format() == Style("", "")
    {
      indent, lineBreak := "", "";
    }

    function Format(): Style
      reads this`indent, this`lineBreak
    {
      Style(indent, lineBreak)
    }

    method DoIndent()
      modifies this`buffer
      ensures buffer == old(buffer) + Indent(Format(), depth)
    {
      var i := 0;
      assert old(buffer) + [] == old(buffer);
      while i < depth
        invariant i <= depth && old(buffer) + Indent(Format(), depth) == buffer + Indent(Format(), depth - i)
      {
        MoreIndent(buffer, Format(), depth - i);
        buffer := buffer + indent;
        i := i + 1;
      }
      assert buffer + [] == buffer;
    }

    static lemma MoreIndent(done: string, style: Style, n: nat)
      requires n > 0
      ensures done + Indent(style, n) == (done + style.indent) + Indent(style, n - 1)
    {
    }

    method DoLineBreak()
      modifies this`buffer
      ensures buffer == old(buffer) + Format().lineBreak
    {
      buffer := buffer + lineBreak;
    }

    /** VisitEnter's loop over the attributes, as far as Next() goes. */
    method PrintAttributes(node: Node)
      requires node.Valid() && node.kind.ElementNode? && this !in node.Repr
      modifies this`buffer
      ensures buffer == old(buffer) + PrintAttrs(node.tree.attrs)
    {
      hide *;
      ghost var attrs, k := node.tree.attrs, 0;
      node.AttributesOf();
      var a := node.attributeSet.First();
      node.attributeSet.WalkFacts(a, k);
      ContentsSize(node.attributeSet);
      AttrsStart(buffer, attrs);
      while a != null
        invariant node.Valid() && node.tree.attrs == attrs && node.attributeSet.WalkAt(a, k) && k <= |attrs|
        invariant a != null ==> k < |attrs|
        invariant old(buffer) + PrintAttrs(attrs) == buffer + AttrsFrom(attrs, k, a != null)
        decreases |attrs| - k, if a == null then 0 else 1
      {
        node.AttributesOf();
        node.attributeSet.WalkFacts(a, k);
        ContentsSize(node.attributeSet);
        var next := node.attributeSet.NextInWalk(a, k);
        WalkStep(node.attributeSet, a, next, k);
        AttrsStep(buffer, attrs, k);
        assert attrs[k] == a.Pair();
        PrintAttribute(a);
        a, k := next, k + 1;
      }
      AttrsEnd(buffer, attrs, k);
    }

    static lemma ContentsSize(s: AttributeSet)
      ensures |s.Contents()| == |s.nodes|
      ensures forall i :: 0 <= i < |s.nodes| ==> s.Contents()[i] == s.nodes[i].Pair()
    {
    }

    static lemma WalkStep(s: AttributeSet, a: Attribute, next: Attribute?, k: nat)
      requires s.WalkAt(a, k) && s.WalkAt(next, k + 1)
      ensures var attrs := s.Contents();
              k + 1 <= |attrs| && (next != null <==> k + 1 < |attrs| && !LooksLikeSentinel(attrs[k + 1]))
    {
      hide LooksLikeSentinel;
    }

    /** The attributes still to print when the walk stands at the k-th, or at none. */
    static function AttrsFrom(attrs: seq<Attr>, k: nat, more: bool): string {
      if more && k < |attrs| then PrintAttrs(attrs[k..]) else ""
    }

    static lemma AttrsStart(done: string, attrs: seq<Attr>)
      ensures done + PrintAttrs(attrs) == done + AttrsFrom(attrs, 0, attrs != [])
    {
      assert attrs[0..] == attrs;
    }

    static lemma AttrsStep(done: string, attrs: seq<Attr>, k: nat)
      requires k < |attrs|
      ensures done + AttrsFrom(attrs, k, true) ==
              (done + (" " + PrintAttr(attrs[k]))) +
              AttrsFrom(attrs, k + 1, k + 1 < |attrs| && !LooksLikeSentinel(attrs[k + 1]))
    {
      hide PrintAttr, LooksLikeSentinel;
      assert attrs[k..][1..] == attrs[k + 1..];
      var one := " " + PrintAttr(attrs[k]);
      assert k + 1 < |attrs| ==> done + (one + PrintAttrs(attrs[k + 1..])) == (done + one) + PrintAttrs(attrs[k + 1..]);
      assert done + one == done + one + "";
    }

    static lemma AttrsEnd(done: string, attrs: seq<Attr>, k: nat)
      ensures done + AttrsFrom(attrs, k, false) == done
    {
    }

    /** TiXmlAttribute::Print, after the blank that VisitEnter writes. */
    method PrintAttribute(a: Attribute)
      modifies this`buffer
      ensures buffer == old(buffer) + (" " + PrintAttr(a.Pair()))
    {
      hide Encode;
      var n := EncodeString(a.name, "");
      var v := EncodeString(a.value, "");
      buffer := buffer + " ";
      if '\"' !in CStr(a.value) {
        buffer := buffer + n + "=\"" + v + "\"";
      } else {
        buffer := buffer + n + "='" + v + "'";
      }
    }

    method VisitEnter(node: Node)
      requires node.Valid() && node.kind.ElementNode? && this !in node.Repr && !simpleTextPrint
      modifies this`buffer, this`depth, this`simpleTextPrint
      ensures buffer == old(buffer) + (Indent(Format(), old(depth)) + Head(node.tree, Format()))
      ensures depth == old(depth) + 1 && simpleTextPrint == IsSimple(node.tree.children)
    {
      hide *;
      ghost var start, style := buffer, Format();
      node.ValueOf();
      FirstAndLast(node);
      HeadAndTail(node.tree, depth, style);
      FormatKept();
      DoIndent();
      buffer := buffer + "<";
      buffer := buffer + CStr(node.value);
      PrintAttributes(node);
      ghost var indented, open := Indent(style, depth), "<" + CStr(node.value) + PrintAttrs(node.tree.attrs);
      Opened(start, indented, CStr(node.value), PrintAttrs(node.tree.attrs), " />", style.lineBreak);
      Opened(start, indented, CStr(node.value), PrintAttrs(node.tree.attrs), ">", style.lineBreak);
      if node.firstChild == null {
        buffer := buffer + " />";
        DoLineBreak();
        assert buffer == start + (indented + (open + (" />" + style.lineBreak)));
      } else {
        buffer := buffer + ">";
        if node.firstChild.kind.TextNode? && node.lastChild == node.firstChild && !node.firstChild.cdata {
          simpleTextPrint := true;
          assert buffer == start + (indented + (open + ">"));
        } else {
          DoLineBreak();
          assert buffer == start + (indented + (open + (">" + style.lineBreak)));
        }
      }
      depth := depth + 1;
      FormatKept();
    }

    static lemma Opened(start: string, indent: string, name: string, attrs: string, close: string, end: string)
      ensures start + indent + "<" + name + attrs + close == start + (indent + ("<" + name + attrs + close))
      ensures start + indent + "<" + name + attrs + close + end == start + (indent + ("<" + name + attrs + (close + end)))
    {
    }

    static lemma Closed(start: string, indent: string, name: string, end: string)
      ensures start + indent + "</" + name + ">" + end == start + (indent + ("</" + name + ">" + end))
      ensures start + "" == start
    {
    }

    static lemma Wrapped(start: string, indent: string, open: string, text: string, close: string, end: string)
      ensures start + indent + open + text + close + end == start + (indent + (open + text + close) + end)
    {
    }

    /** A single plain text child, as VisitEnter recognises it. */
    static lemma FirstAndLast(node: Node)
      requires node.Valid() && node.kind.ElementNode?
      ensures node.firstChild == null <==> node.tree.children == []
      ensures node.firstChild == null ==> !IsSimple(node.tree.children)
      ensures node.firstChild != null ==>
        (IsSimple(node.tree.children) <==>
          node.firstChild.kind.TextNode? && node.lastChild == node.firstChild && !node.firstChild.cdata)
    {
      hide Node.Valid;
      node.ChildrenOf(0);
      if node.firstChild != null {
        KindsOfText(node.firstChild);
        node.firstChild.ValueOf();
        LastChildOf(node);
      }
    }

    static lemma LastChildOf(node: Node)
      requires node.Valid()
      ensures node.children != [] ==> (node.lastChild == node.children[0] <==> |node.children| == 1)
    {
      assert node.lastChild == Node.At(node.children, |node.children| - 1);
    }

    method VisitExit(node: Node)
      requires node.Valid() && node.kind.ElementNode? && this !in node.Repr
      requires depth > 0 && simpleTextPrint == IsSimple(node.tree.children)
      modifies this`buffer, this`depth, this`simpleTextPrint
      ensures buffer == old(buffer) + Tail(node.tree, depth, Format())
      ensures depth == old(depth) - 1 && !simpleTextPrint
    {
      hide *;
      node.ValueOf();
      FirstAndLast(node);
      HeadAndTail(node.tree, depth - 1, Format());
      FormatKept();
      depth := depth - 1;
      if node.firstChild != null {
        CloseElement(CStr(node.value));
      }
    }

    method CloseElement(name: string)
      modifies this`buffer, this`simpleTextPrint
      ensures buffer == old(buffer) + ((if old(simpleTextPrint) then "" else Indent(Format(), depth)) +
                                       ("</" + name + ">" + Format().lineBreak))
      ensures !simpleTextPrint
    {
      hide *;
      ghost var start, mid := buffer, if simpleTextPrint then "" else Indent(Format(), depth);
      Closed(start, mid, name, Format().lineBreak);
      FormatKept();
      if simpleTextPrint {
        simpleTextPrint := false;
      } else {
        DoIndent();
      }
      FormatKept();
      assert buffer == start + mid;
      CloseTag(name, start + mid);
      FormatKept();
    }

    method CloseTag(name: string, ghost start: string)
      requires buffer == start
      modifies this`buffer
      ensures buffer == start + "</" + name + ">" + Format().lineBreak
    {
      buffer := buffer + "</";
      buffer := buffer + name;
      buffer := buffer + ">";
      DoLineBreak();
    }

    method VisitText(node: Node)
      requires node.Valid() && node.kind.TextNode? && (simpleTextPrint ==> !node.cdata)
      modifies this`buffer
      ensures buffer == old(buffer) + PrintOne(node.tree, depth, Format(), simpleTextPrint)
    {
      hide Node.Valid, Indent, CStr, Encode;
      node.ValueOf();
      assert node.tree == Text(node.value, node.cdata);
      if node.cdata {
        DoIndent();
        Wrapped(old(buffer), Indent(Format(), depth), "<![CDATA[", CStr(node.value), "]]>", lineBreak);
        buffer := buffer + "<![CDATA[";
        buffer := buffer + CStr(node.value);
        buffer := buffer + "]]>";
        DoLineBreak();
        assert buffer == old(buffer) + PrintNode(node.tree, depth, Format());
      } else if simpleTextPrint {
        var str := EncodeString(node.value, "");
        buffer := buffer + str;
      } else {
        DoIndent();
        ThreeParts(old(buffer), Indent(Format(), depth), Encode(node.value), lineBreak);
        var str := EncodeString(node.value, "");
        buffer := buffer + str;
        DoLineBreak();
        assert buffer == old(buffer) + PrintNode(node.tree, depth, Format());
      }
    }

    method VisitComment(node: Node)
      requires node.Valid() && node.kind.CommentNode? && !simpleTextPrint
      modifies this`buffer
      ensures buffer == old(buffer) + PrintOne(node.tree, depth, Format(), false)
    {
      hide Node.Valid, Indent, CStr;
      node.ValueOf();
      assert node.tree == Comment(node.value);
      DoIndent();
      Wrapped(old(buffer), Indent(Format(), depth), "<!--", CStr(node.value), "-->", lineBreak);
      buffer := buffer + "<!--";
      buffer := buffer + CStr(node.value);
      buffer := buffer + "-->";
      DoLineBreak();
      assert buffer == old(buffer) + PrintNode(node.tree, depth, Format());
    }

    method VisitUnknown(node: Node)
      requires node.Valid() && node.kind.UnknownNode? && !simpleTextPrint
      modifies this`buffer
      ensures buffer == old(buffer) + PrintOne(node.tree, depth, Format(), false)
    {
      hide Node.Valid, Indent, CStr;
      node.ValueOf();
      assert node.tree == Unknown(node.value);
      DoIndent();
      Wrapped(old(buffer), Indent(Format(), depth), "<", CStr(node.value), ">", lineBreak);
      buffer := buffer + "<";
      buffer := buffer + CStr(node.value);
      buffer := buffer + ">";
      DoLineBreak();
      assert buffer == old(buffer) + PrintNode(node.tree, depth, Format());
    }

    /** Prints the tree below the node: on lines of its own, or bare in simple text mode. */
    method Accept(node: Node)
      requires node.Valid() && this !in node.Repr && !node.kind.DocumentNode?
      requires simpleTextPrint ==> IsPlainText(node.tree)
      modifies this`buffer, this`depth, this`simpleTextPrint
      ensures buffer == old(buffer) + PrintOne(node.tree, depth, Format(), old(simpleTextPrint))
      ensures depth == old(depth) && simpleTextPrint == old(simpleTextPrint)
      decreases node.Repr, 2
    {
      hide *;
      node.ValueOf();
      KindsOfText(node);
      match node.kind {
        case ElementNode => AcceptElement(node);
        case TextNode => VisitText(node);
        case CommentNode => VisitComment(node);
        case UnknownNode => VisitUnknown(node);
      }
    }

    static lemma KindsOfText(node: Node)
      requires node.Valid()
      ensures IsPlainText(node.tree) <==> node.kind.TextNode? && !node.cdata
    {
    }

    method AcceptElement(node: Node)
      requires node.Valid() && node.kind.ElementNode? && this !in node.Repr && !simpleTextPrint
      modifies this`buffer, this`depth, this`simpleTextPrint
      ensures buffer == old(buffer) + PrintOne(node.tree, depth, Format(), false)
      ensures depth == old(depth) && !simpleTextPrint
      decreases node.Repr, 1
    {
      hide *;
      node.ValueOf();
      ghost var t, style, start := node.tree, Format(), buffer;
      VisitEnter(node);
      FormatKept();
      AcceptChildren(node);
      FormatKept();
      VisitExit(node);
      FormatKept();
      PartsOfElement(t, depth, style);
      OneLine(t, depth, style);
      ThreeParts(start, Indent(style, depth) + Head(t, style),
        PrintAll(t.children, depth + 1, style, IsSimple(t.children)), Tail(t, depth, style));
    }

    lemma FormatKept()
      ensures Format() == Style(indent, lineBreak)
    {
    }

    static lemma OneLine(t: Tree, depth: nat, style: Style)
      ensures PrintOne(t, depth, style, false) == PrintNode(t, depth, style)
    {
    }

    static lemma ThreeParts(start: string, a: string, b: string, c: string)
      ensures start + a + b + c == start + (a + b + c)
    {
    }

    method AcceptChildren(node: Node)
      requires node.Valid() && node.kind.ElementNode? && this !in node.Repr
      requires simpleTextPrint == IsSimple(node.tree.children)
      modifies this`buffer, this`depth, this`simpleTextPrint
      ensures buffer == old(buffer) + PrintAll(node.tree.children, depth, Format(), simpleTextPrint)
      ensures depth == old(depth) && simpleTextPrint == old(simpleTextPrint)
      decreases node.Repr, 0
    {
      hide *;
      ghost var trees, i, style := node.tree.children, 0, Format();
      node.ChildrenOf(0);
      var child := node.firstChild;
      assert trees[0..] == trees;
      while child != null
        invariant node.Valid() && node.tree.children == trees && i <= |node.children| == |trees|
        invariant child == Node.At(node.children, i) && Format() == style
        invariant depth == old(depth) && simpleTextPrint == old(simpleTextPrint)
        invariant old(buffer) + PrintAll(trees, depth, style, simpleTextPrint) ==
                  buffer + PrintAll(trees[i..], depth, style, simpleTextPrint)
        decreases |node.children| - i
      {
        node.ChildrenOf(i);
        NthChild(node.children, child, i);
        SimpleChild(trees, i);
        AllStep(buffer, trees, i, depth, style, simpleTextPrint);
        Accept(child);
        FormatKept();
        child := child.next;
        i := i + 1;
      }
      NthChild(node.children, child, i);
      AllEnd(buffer, trees[i..], depth, style, simpleTextPrint);
    }

    static lemma NthChild(s: seq<Node>, child: Node?, i: nat)
      requires i <= |s| && child == Node.At(s, i)
      ensures child == null <==> i == |s|
      ensures child != null ==> child == s[i]
    {
    }

    static lemma SimpleChild(trees: seq<Tree>, i: nat)
      requires i < |trees|
      ensures IsSimple(trees) ==> IsPlainText(trees[i])
    {
    }

    static lemma AllStep(done: string, trees: seq<Tree>, i: nat, depth: nat, style: Style, simple: bool)
      requires i < |trees|
      ensures done + PrintAll(trees[i..], depth, style, simple) ==
              (done + PrintOne(trees[i], depth, style, simple)) + PrintAll(trees[i + 1..], depth, style, simple)
    {
      hide PrintOne;
      assert trees[i..][1..] == trees[i + 1..];
    }

    static lemma AllEnd(done: string, trees: seq<Tree>, depth: nat, style: Style, simple: bool)
      ensures trees == [] ==> done + PrintAll(trees, depth, style, simple) == done
    {
    }
  }

  /** Reading gives the tree again and ends behind its text. */
  predicate ReadAgain(t: Tree, lineBreak: string, u: Tree, end: Option<string>) {
    u == t && end == Some(lineBreak)
  }

  /**
   Prints an element on the heap and reads the C string back into a new element: the trees are equal, and
   nothing but the line break is left, exactly when the tree is printable.
   */
  method PrintAndParse(node: Node, printer: Printer) returns (again: Node, end: Option<string>)
    requires node.Valid() && node.kind.ElementNode? && printer !in node.Repr
    requires printer.buffer == "" && !printer.simpleTextPrint && WhiteStyle(printer.Format())
    modifies printer
    ensures again.Valid() && fresh(again.Repr)
    ensures ReadAgain(old(node.tree), old(printer.lineBreak), again.tree, end) <==> Printable(old(node.tree))
  {
    hide *;
    ghost var t, depth, style := node.tree, printer.depth, printer.Format();
    ghost var text := PrintNode(t, depth, style);
    node.ValueOf();
    printer.FormatKept();
    printer.Accept(node);
    printer.FormatKept();
    Printer.OneLine(t, depth, style);
    assert "" + text == text;
    CStringExactly(t, depth, style);
    again := new Node(ElementNode, "", false);
    NewElement();
    end := ParseElementNode(again, CStr(printer.buffer));
    ReadExactly(t, style.lineBreak, ParseElement(CStr(text)), end, again.tree);
  }

  /** The same with the printer set to print without white space between the nodes. */
  method StreamAndParse(node: Node) returns (again: Node, end: Option<string>)
    requires node.Valid() && node.kind.ElementNode?
    ensures again.Valid() && fresh(again.Repr)
    ensures ReadAgain(old(node.tree), "", again.tree, end) <==> Printable(old(node.tree))
  {
    hide *;
    var printer := new Printer();
    printer.SetStreamPrinting();
    printer.FormatKept();
    NoWhiteSpace();
    again, end := PrintAndParse(node, printer);
  }

  lemma NoWhiteSpace()
    ensures WhiteStyle(Style("", ""))
  {
  }

  lemma NewElement()
    ensures NewTree(ElementNode, CStr(""), false) == Element("", [], [])
  {
  }

  lemma ReadExactly(t: Tree, rest: string, spec: Option<(Tree, string)>, r: Option<string>, u: Tree)
    requires Read(spec, r, u)
    ensures spec == Some((t, rest)) <==> ReadAgain(t, rest, u, r)
  {
  }
}
