/** Parsed HTML nodes and the text of their children (`childText`). */
module Html {

  /** The node kinds of golang.org/x/net/html. */
  datatype NodeType = ErrorNode | TextNode | DocumentNode | ElementNode | CommentNode | DoctypeNode

  /**
   * A parsed node: its kind, its data (the text of a text node, the tag name
   * of an element) and its children in document order.
   */
  datatype Node = Node(kind: NodeType, data: string, children: seq<Node>)

  /** The text all children of `n` contribute, in order. */
  function TextOf(n: Node): string
    decreases n, 1
  {
    TextOfFirst(n, |n.children|)
  }

  /** The text the first `k` children of `n` contribute. */
  function TextOfFirst(n: Node, k: nat): string
    requires k <= |n.children|
    decreases n, 0, k
  {
    if k == 0 then ""
    else TextOfFirst(n, k - 1) + Contribution(n.children[k - 1])
  }

  /** What one child adds: a text node its data, an element its own text, anything else nothing. */
  function Contribution(child: Node): string
    decreases child, 2
  {
    match child.kind
    case TextNode => child.data
    case ElementNode => TextOf(child)
    case _ => ""
  }

  /**
   * `childText(node)`: walks the children of `node` in order, appending the
   * data of each text node and the text of each element, recursively; every
   * other kind of node is ignored.
   */
  method ChildText(node: Node) returns (s: string)
    ensures s == TextOf(node)
    decreases node
  {
    s := "";
    var i := 0;
    while i < |node.children|
      invariant 0 <= i <= |node.children|
      invariant s == TextOfFirst(node, i)
    {
      var child := node.children[i];
      match child.kind {
        case TextNode =>
          s := s + child.data;
        case ElementNode =>
          var t := ChildText(child);
          s := s + t;
        case _ =>
      }
      i := i + 1;
    }
  }

  /** The text of children `a + b` is the text of `a` followed by the text of `b`. */
  lemma {:induction false} TextOfAppend(kind: NodeType, data: string, a: seq<Node>, b: seq<Node>)
    ensures TextOf(Node(kind, data, a + b)) == TextOf(Node(kind, data, a)) + TextOf(Node(kind, data, b))
    decreases |b|
  {
    var n := Node(kind, data, a + b);
    if b == [] {
      assert a + b == a;
    } else {
      var init := b[..|b| - 1];
      var m := Node(kind, data, a + init);
      TextOfAppend(kind, data, a, init);
      TextOfFirstPrefix(n, m, |a + init|);
      TextOfFirstPrefix(Node(kind, data, b), Node(kind, data, init), |init|);
    }
  }

  /** Two nodes whose first `k` children agree have the same text for those children. */
  lemma {:induction false} TextOfFirstPrefix(n: Node, m: Node, k: nat)
    requires k <= |n.children| && k <= |m.children|
    requires n.children[..k] == m.children[..k]
    ensures TextOfFirst(n, k) == TextOfFirst(m, k)
    decreases k
  {
    if k > 0 {
      assert n.children[..k - 1] == m.children[..k - 1];
      assert n.children[k - 1] == n.children[..k][k - 1];
      TextOfFirstPrefix(n, m, k - 1);
    }
  }

  /** The text of a node depends only on its children, not on its kind or data. */
  lemma TextOfChildrenOnly(n: Node, m: Node)
    requires n.children == m.children
    ensures TextOf(n) == TextOf(m)
  {
    TextOfFirstPrefix(n, m, |n.children|);
  }

  /** A node with no children yields "", and one with a single child yields that child's contribution. */
  lemma TextOfSingle(kind: NodeType, data: string, child: Node)
    ensures TextOf(Node(kind, data, [])) == ""
    ensures TextOf(Node(kind, data, [child])) == Contribution(child)
  {
    assert TextOf(Node(kind, data, [child])) == TextOfFirst(Node(kind, data, [child]), 0) + Contribution(child);
  }

  /** Wrapping children in an element changes nothing: nesting is transparent to the text. */
  lemma TextOfWrapped(n: Node, tag: string)
    ensures TextOf(Node(n.kind, n.data, [Node(ElementNode, tag, n.children)])) == TextOf(n)
  {
    var e := Node(ElementNode, tag, n.children);
    TextOfSingle(n.kind, n.data, e);
    TextOfChildrenOnly(e, n);
  }

  /** A child that is neither text nor an element contributes nothing, wherever it stands. */
  lemma TextOfIgnores(kind: NodeType, data: string, a: seq<Node>, other: Node, b: seq<Node>)
    requires other.kind != TextNode && other.kind != ElementNode
    ensures TextOf(Node(kind, data, a + [other] + b)) == TextOf(Node(kind, data, a + b))
  {
    TextOfAppend(kind, data, a + [other], b);
    TextOfAppend(kind, data, a, [other]);
    TextOfSingle(kind, data, other);
    assert a + [other] + b == (a + [other]) + b;
    TextOfAppend(kind, data, a, b);
  }
}
