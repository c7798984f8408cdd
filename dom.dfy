/**
 * The display host the renderer drives: a table of nodes, each an element
 * node with a tag or a text node with a value, holding its parent, its
 * ordered children, its properties, its style and its input listeners.
 *
 * The operations are those the renderer calls on the browser DOM:
 * createElement, createTextNode, appendChild, replaceWith, remove, the
 * nodeValue, style and property setters and addEventListener. References to
 * nodes missing from the table are treated as no-ops.
 */
module Dom {
  import opened Wrappers
  import opened Elements

  type NodeId = nat

  datatype Kind = ElementNode(tag: string) | TextNode(value: string)

  datatype Node = Node(
    kind: Kind,
    parent: Option<NodeId>,
    children: seq<NodeId>,
    props: map<string, PropVal>,
    style: map<string, string>,
    listeners: seq<HandlerId>)

  type Nodes = map<NodeId, Node>

  /** A node as `document.createElement` / `document.createTextNode` return it. */
  function NewNode(k: Kind): (n: Node)
    ensures n.kind == k && n.parent == None && n.children == []
    ensures n.props == map[] && n.style == map[] && n.listeners == []
  {
    Node(k, None, [], map[], map[], [])
  }

  /** Every node in the table has an id below the next id to hand out. */
  ghost predicate Bounded(nodes: Nodes, next: NodeId)
  {
    forall n :: n in nodes ==> n < next
  }

  /** `s` without any occurrence of `x`. */
  function Without(s: seq<NodeId>, x: NodeId): (r: seq<NodeId>)
    ensures x !in r
    ensures forall y :: y in r <==> y in s && y != x
    ensures x !in s ==> r == s
  {
    if s == [] then []
    else Without(s[..|s| - 1], x) + (if s[|s| - 1] == x then [] else [s[|s| - 1]])
  }

  /** `s` with every occurrence of `x` replaced by `y`. */
  function ReplaceIn(s: seq<NodeId>, x: NodeId, y: NodeId): (r: seq<NodeId>)
    ensures |r| == |s|
    ensures forall i :: 0 <= i < |s| ==> r[i] == if s[i] == x then y else s[i]
  {
    seq(|s|, i requires 0 <= i < |s| => if s[i] == x then y else s[i])
  }

  /** `n.remove()`: take `n` out of its parent's children; a node without a parent is left as it is. */
  function Detached(nodes: Nodes, n: NodeId): (r: Nodes)
    ensures r.Keys == nodes.Keys
  {
    if n in nodes && nodes[n].parent.Some? && nodes[n].parent.value in nodes then
      var q := nodes[n].parent.value;
      var nodes1 := nodes[q := nodes[q].(children := Without(nodes[q].children, n))];
      nodes1[n := nodes1[n].(parent := None)]
    else nodes
  }

  /** `p.appendChild(c)`: `c` leaves its old parent, if any, and becomes the last child of `p`. */
  function Appended(nodes: Nodes, p: NodeId, c: NodeId): (r: Nodes)
    ensures r.Keys == nodes.Keys
  {
    if p in nodes && c in nodes && p != c then
      var nodes1 := Detached(nodes, c);
      var nodes2 := nodes1[p := nodes1[p].(children := nodes1[p].children + [c])];
      nodes2[c := nodes2[c].(parent := Some(p))]
    else nodes
  }

  /** `o.replaceWith(n)`: `n` takes the place of `o` in `o`'s parent; a parentless `o` is left as it is. */
  function Replaced(nodes: Nodes, o: NodeId, n: NodeId): (r: Nodes)
    ensures r.Keys == nodes.Keys
  {
    if o in nodes && n in nodes && o != n && nodes[o].parent.Some? && nodes[o].parent.value in nodes
       && nodes[o].parent.value != n then
      var q := nodes[o].parent.value;
      var nodes1 := Detached(nodes, n);
      var nodes2 := nodes1[q := nodes1[q].(children := ReplaceIn(nodes1[q].children, o, n))];
      var nodes3 := nodes2[n := nodes2[n].(parent := Some(q))];
      nodes3[o := nodes3[o].(parent := None)]
    else nodes
  }

  /** `n.nodeValue = s`: rewrites a text node's value; on an element node it has no effect. */
  function WithNodeValue(nodes: Nodes, n: NodeId, s: string): (r: Nodes)
    ensures r.Keys == nodes.Keys
  {
    if n in nodes && nodes[n].kind.TextNode? then nodes[n := nodes[n].(kind := TextNode(s))] else nodes
  }

  /** `d.childNodes[k]`, when it exists. */
  function ChildAt(nodes: Nodes, d: Option<NodeId>, k: nat): (r: Option<NodeId>)
    ensures r.Some? <==> d.Some? && d.value in nodes && k < |nodes[d.value].children|
    ensures r.Some? ==> r.value == nodes[d.value].children[k]
  {
    if d.Some? && d.value in nodes && k < |nodes[d.value].children| then
      Some(nodes[d.value].children[k])
    else None
  }

  /** `n.parentElement`: the parent, when it is an element node. */
  function ParentElement(nodes: Nodes, n: NodeId): (r: Option<NodeId>)
    ensures r.Some? ==> n in nodes && nodes[n].parent == r && r.value in nodes && nodes[r.value].kind.ElementNode?
  {
    if n in nodes && nodes[n].parent.Some? && nodes[n].parent.value in nodes
       && nodes[nodes[n].parent.value].kind.ElementNode? then
      nodes[n].parent
    else None
  }

  /** `n.style[k] = v`. */
  function WithStyle(nodes: Nodes, n: NodeId, k: string, v: string): (r: Nodes)
    ensures r.Keys == nodes.Keys
  {
    if n in nodes then nodes[n := nodes[n].(style := nodes[n].style[k := v])] else nodes
  }

  /** `n[k] = v` for a property of the node. */
  function WithProperty(nodes: Nodes, n: NodeId, k: string, v: PropVal): (r: Nodes)
    ensures r.Keys == nodes.Keys
  {
    if n in nodes then nodes[n := nodes[n].(props := nodes[n].props[k := v])] else nodes
  }

  /**
   * `n.addEventListener("input", h)`: the host registers a listener only once
   * per function and event type, so a handler already registered is not added again.
   */
  function WithListener(nodes: Nodes, n: NodeId, h: HandlerId): (r: Nodes)
    ensures r.Keys == nodes.Keys
  {
    if n in nodes && h !in nodes[n].listeners then
      nodes[n := nodes[n].(listeners := nodes[n].listeners + [h])]
    else nodes
  }

  // ---------------------------------------------------------------------
  // What each host operation changes, and what it leaves alone.
  // ---------------------------------------------------------------------

  /** Appending a node without a parent: it becomes the last child, and no other node changes. */
  lemma AppendChildEffect(nodes: Nodes, p: NodeId, c: NodeId)
    requires p in nodes && c in nodes && p != c && nodes[c].parent == None
    ensures Appended(nodes, p, c)[p] == nodes[p].(children := nodes[p].children + [c])
    ensures Appended(nodes, p, c)[c] == nodes[c].(parent := Some(p))
    ensures forall m :: m in nodes && m != p && m != c ==> Appended(nodes, p, c)[m] == nodes[m]
  {
  }

  /** Removing a node only edits its old parent's children list and its own parent link. */
  lemma DetachEffect(nodes: Nodes, n: NodeId)
    requires n in nodes && nodes[n].parent.Some? && nodes[n].parent.value in nodes
    ensures var q := nodes[n].parent.value;
      var r := Detached(nodes, n);
      && r[n].parent == None
      && n !in r[q].children
      && (forall m :: m in r[q].children <==> m in nodes[q].children && m != n)
      && (q != n ==> r[q] == nodes[q].(children := Without(nodes[q].children, n)))
      && (q != n ==> r[n] == nodes[n].(parent := None))
      && (q == n ==> r[n] == nodes[n].(children := Without(nodes[n].children, n), parent := None))
      && (forall m :: m in nodes && m != q && m != n ==> r[m] == nodes[m])
  {
  }

  /** Dropping `x` distributes over a concatenation, so the order of the rest is kept. */
  lemma {:induction false} WithoutAppend(a: seq<NodeId>, b: seq<NodeId>, x: NodeId)
    ensures Without(a + b, x) == Without(a, x) + Without(b, x)
    decreases |b|
  {
    if b == [] {
      assert a + b == a;
    } else {
      var b' := b[..|b| - 1];
      assert (a + b)[..|a + b| - 1] == a + b';
      assert (a + b)[|a + b| - 1] == b[|b| - 1];
      WithoutAppend(a, b', x);
    }
  }

  /** A child that occurs once, at position `i`, leaves the others in their order: the siblings
      before it keep their positions and the ones after it move up by one. */
  lemma {:induction false} WithoutOnce(s: seq<NodeId>, x: NodeId, i: nat)
    requires i < |s| && s[i] == x && x !in s[..i] && x !in s[i + 1..]
    ensures Without(s, x) == s[..i] + s[i + 1..]
  {
    assert s == s[..i] + ([x] + s[i + 1..]);
    WithoutAppend(s[..i], [x] + s[i + 1..], x);
    WithoutAppend([x], s[i + 1..], x);
    assert Without([x], x) == [];
  }

  /** Rewriting a text value touches that one node, and only its kind. */
  lemma SetNodeValueEffect(nodes: Nodes, n: NodeId, s: string)
    ensures forall m :: m in nodes && m != n ==> WithNodeValue(nodes, n, s)[m] == nodes[m]
    ensures n in nodes ==> WithNodeValue(nodes, n, s)[n].parent == nodes[n].parent
    ensures n in nodes ==> WithNodeValue(nodes, n, s)[n].children == nodes[n].children
    ensures n in nodes && nodes[n].kind.TextNode? ==> WithNodeValue(nodes, n, s)[n].kind == TextNode(s)
    ensures n in nodes && nodes[n].kind.ElementNode? ==> WithNodeValue(nodes, n, s) == nodes
  {
  }

  /** Registering the same handler twice is the same as registering it once. */
  lemma AddListenerIdempotent(nodes: Nodes, n: NodeId, h: HandlerId)
    ensures WithListener(WithListener(nodes, n, h), n, h) == WithListener(nodes, n, h)
  {
  }

  /** Every node of `a` is still in `b`, with the same properties, style and listeners. */
  ghost predicate SameAttrs(a: Nodes, b: Nodes)
  {
    forall m :: m in a ==> m in b && b[m].props == a[m].props && b[m].style == a[m].style
                           && b[m].listeners == a[m].listeners
  }

  lemma SameAttrsTrans(a: Nodes, b: Nodes, c: Nodes)
    requires SameAttrs(a, b) && SameAttrs(b, c)
    ensures SameAttrs(a, c)
  {
  }

  /** Rewriting one node's links, with its attributes as they were, changes no node's attributes. */
  lemma RelinkKeepsAttrs(nodes: Nodes, m: NodeId, node: Node)
    requires m in nodes
    requires node.props == nodes[m].props && node.style == nodes[m].style && node.listeners == nodes[m].listeners
    ensures SameAttrs(nodes, nodes[m := node])
  {
  }

  /** Taking a node out of its parent never changes any node's attributes. */
  lemma DetachedKeepsAttrs(nodes: Nodes, c: NodeId)
    ensures SameAttrs(nodes, Detached(nodes, c))
  {
    if c in nodes && nodes[c].parent.Some? && nodes[c].parent.value in nodes {
      var q := nodes[c].parent.value;
      var nodes1 := nodes[q := nodes[q].(children := Without(nodes[q].children, c))];
      RelinkKeepsAttrs(nodes, q, nodes[q].(children := Without(nodes[q].children, c)));
      RelinkKeepsAttrs(nodes1, c, nodes1[c].(parent := None));
      SameAttrsTrans(nodes, nodes1, Detached(nodes, c));
    }
  }

  /** Appending a node never changes any node's attributes. */
  lemma AppendedKeepsAttrs(nodes: Nodes, p: NodeId, c: NodeId)
    ensures SameAttrs(nodes, Appended(nodes, p, c))
  {
    if p in nodes && c in nodes && p != c {
      var nodes1 := Detached(nodes, c);
      DetachedKeepsAttrs(nodes, c);
      var nodes2 := nodes1[p := nodes1[p].(children := nodes1[p].children + [c])];
      RelinkKeepsAttrs(nodes1, p, nodes1[p].(children := nodes1[p].children + [c]));
      RelinkKeepsAttrs(nodes2, c, nodes2[c].(parent := Some(p)));
      SameAttrsTrans(nodes, nodes1, nodes2);
      SameAttrsTrans(nodes, nodes2, Appended(nodes, p, c));
    }
  }

  /** Replacing a node by another never changes any node's attributes. */
  lemma ReplacedKeepsAttrs(nodes: Nodes, o: NodeId, n: NodeId)
    ensures SameAttrs(nodes, Replaced(nodes, o, n))
  {
    if o in nodes && n in nodes && o != n && nodes[o].parent.Some? && nodes[o].parent.value in nodes
       && nodes[o].parent.value != n {
      var q := nodes[o].parent.value;
      var nodes1 := Detached(nodes, n);
      DetachedKeepsAttrs(nodes, n);
      var nodes2 := nodes1[q := nodes1[q].(children := ReplaceIn(nodes1[q].children, o, n))];
      RelinkKeepsAttrs(nodes1, q, nodes1[q].(children := ReplaceIn(nodes1[q].children, o, n)));
      var nodes3 := nodes2[n := nodes2[n].(parent := Some(q))];
      RelinkKeepsAttrs(nodes2, n, nodes2[n].(parent := Some(q)));
      RelinkKeepsAttrs(nodes3, o, nodes3[o].(parent := None));
      SameAttrsTrans(nodes, nodes1, nodes2);
      SameAttrsTrans(nodes, nodes2, nodes3);
      SameAttrsTrans(nodes, nodes3, Replaced(nodes, o, n));
    }
  }

  /** The host object: the node table, mutated in place by the DOM calls. */
  class Document {
    var nodes: Nodes
    var next: NodeId

    ghost predicate Valid()
      reads this
    {
      Bounded(nodes, next)
    }

    constructor ()
      ensures Valid() && nodes == map[] && next == 0
    {
      nodes := map[];
      next := 0;
    }

    /** `document.createElement(tag)`: a fresh element node, not attached anywhere. */
    method CreateElement(tag: string) returns (n: NodeId)
      modifies this
      ensures n == old(next) && next == old(next) + 1
      ensures nodes == old(nodes)[n := NewNode(ElementNode(tag))]
      ensures old(Valid()) ==> Valid() && n !in old(nodes)
    {
      n := next;
      nodes := nodes[n := NewNode(ElementNode(tag))];
      next := next + 1;
    }

    /** `document.createTextNode(s)`: a fresh text node, not attached anywhere. */
    method CreateTextNode(s: string) returns (n: NodeId)
      modifies this
      ensures n == old(next) && next == old(next) + 1
      ensures nodes == old(nodes)[n := NewNode(TextNode(s))]
      ensures old(Valid()) ==> Valid() && n !in old(nodes)
    {
      n := next;
      nodes := nodes[n := NewNode(TextNode(s))];
      next := next + 1;
    }

    method AppendChild(p: NodeId, c: NodeId)
      modifies this
      ensures nodes == Appended(old(nodes), p, c) && next == old(next)
      ensures old(Valid()) ==> Valid()
    {
      nodes := Appended(nodes, p, c);
    }

    method ReplaceWith(o: NodeId, n: NodeId)
      modifies this
      ensures nodes == Replaced(old(nodes), o, n) && next == old(next)
      ensures old(Valid()) ==> Valid()
    {
      nodes := Replaced(nodes, o, n);
    }

    method Remove(n: NodeId)
      modifies this
      ensures nodes == Detached(old(nodes), n) && next == old(next)
      ensures old(Valid()) ==> Valid()
    {
      nodes := Detached(nodes, n);
    }

    method SetNodeValue(n: NodeId, s: string)
      modifies this
      ensures nodes == WithNodeValue(old(nodes), n, s) && next == old(next)
      ensures old(Valid()) ==> Valid()
    {
      nodes := WithNodeValue(nodes, n, s);
    }

    method SetStyle(n: NodeId, k: string, v: string)
      modifies this
      ensures nodes == WithStyle(old(nodes), n, k, v) && next == old(next)
      ensures old(Valid()) ==> Valid()
    {
      nodes := WithStyle(nodes, n, k, v);
    }

    method SetProperty(n: NodeId, k: string, v: PropVal)
      modifies this
      ensures nodes == WithProperty(old(nodes), n, k, v) && next == old(next)
      ensures old(Valid()) ==> Valid()
    {
      nodes := WithProperty(nodes, n, k, v);
    }

    method AddEventListener(n: NodeId, h: HandlerId)
      modifies this
      ensures nodes == WithListener(old(nodes), n, h) && next == old(next)
      ensures old(Valid()) ==> Valid()
    {
      nodes := WithListener(nodes, n, h);
    }

    /** `d.childNodes[k]`. */
    function ChildNode(d: Option<NodeId>, k: nat): (r: Option<NodeId>)
      reads this
      ensures r == ChildAt(nodes, d, k)
    {
      ChildAt(nodes, d, k)
    }

    /** `n.parentElement`. */
    function ParentOf(n: NodeId): (r: Option<NodeId>)
      reads this
      ensures r == ParentElement(nodes, n)
    {
      ParentElement(nodes, n)
    }
  }
}
