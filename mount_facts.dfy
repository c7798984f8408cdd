/**
 * What `mount` of react/render.tsx does to the display tree and to the
 * renderer's registries, case by case, and the frame it keeps: mounting into
 * a container creates fresh nodes, extends that container's children with
 * fresh nodes, and leaves every other node that existed before untouched.
 */
module MountFacts {
  import opened Wrappers
  import opened Elements
  import opened Dom
  import opened Session
  import opened Attributes
  import opened Reconcile

  /** Node `b` is node `a` with fresh nodes (ids in `[lo, hi)`) appended to its children. */
  ghost predicate Extends(a: Node, b: Node, lo: nat, hi: nat)
  {
    && b == a.(children := b.children)
    && a.children <= b.children
    && (forall i :: |a.children| <= i < |b.children| ==> lo <= b.children[i] < hi)
  }

  /**
   * `r` is what mounting into container `c` may leave after `st`: node ids
   * are only added, and only fresh ones; every old node other than `c` is
   * unchanged and `c` only gained fresh children; `components` only grew at
   * its end; every `dom` and `current` that changed now points at a fresh
   * node; `previousEl` is unchanged.
   */
  ghost predicate Grows(st: State, r: State, c: NodeId)
  {
    && st.next <= r.next
    && st.nodes.Keys <= r.nodes.Keys
    && (forall m :: m in r.nodes ==> m in st.nodes || st.next <= m < r.next)
    && (forall m :: m in st.nodes && m != c ==> r.nodes[m] == st.nodes[m])
    && (c in st.nodes ==> Extends(st.nodes[c], r.nodes[c], st.next, r.next))
    && st.components <= r.components
    && st.dom.Keys <= r.dom.Keys
    && (forall e :: e in r.dom ==> (e in st.dom && r.dom[e] == st.dom[e]) || st.next <= r.dom[e] < r.next)
    && st.refs.Keys <= r.refs.Keys
    && (forall x :: x in r.refs ==> (x in st.refs && r.refs[x] == st.refs[x]) || st.next <= r.refs[x] < r.next)
    && r.previousEl == st.previousEl
  }

  lemma GrowsRefl(st: State, r: State, c: NodeId)
    requires r == st.(thrown := r.thrown)
    ensures Grows(st, r, c)
  {
    if c in st.nodes {
      assert st.nodes[c] == st.nodes[c].(children := st.nodes[c].children);
    }
  }

  lemma GrowsTrans(a: State, b: State, d: State, c: NodeId)
    requires Grows(a, b, c) && Grows(b, d, c)
    ensures Grows(a, d, c)
  {
    if c in a.nodes {
      var ca, cb, cd := a.nodes[c].children, b.nodes[c].children, d.nodes[c].children;
      assert ca <= cd;
      forall i | |ca| <= i < |cd| ensures a.next <= cd[i] < d.next {
        if i < |cb| {
          assert cd[i] == cb[i];
        }
      }
    }
  }

  /** The mount frame `Grows` keeps every old node's attributes. */
  lemma GrowsKeepsAttrs(st: State, r: State, c: NodeId)
    requires Grows(st, r, c)
    ensures SameAttrs(st.nodes, r.nodes)
  {
    forall m | m in st.nodes
      ensures m in r.nodes && r.nodes[m].props == st.nodes[m].props && r.nodes[m].style == st.nodes[m].style
              && r.nodes[m].listeners == st.nodes[m].listeners
    {
      if m == c {
        assert Extends(st.nodes[c], r.nodes[c], st.next, r.next);
      }
    }
  }

  /** Attaching a node, in either mode, changes no node's attributes. */
  lemma AttachKeepsAttrs(st: State, c: NodeId, n: NodeId, mode: Mode)
    ensures SameAttrs(st.nodes, Attach(st, c, n, mode).nodes)
  {
    if mode == Replace {
      ReplacedKeepsAttrs(st.nodes, c, n);
    } else {
      AppendedKeepsAttrs(st.nodes, c, n);
    }
  }

  /** A string or number creates one text node, appends it to `c` and nothing else changes. */
  lemma MountTextGrows(st: State, v: Value, c: NodeId)
    requires IsText(v) && Wf(st)
    ensures Grows(st, MountText(st, v, c), c) && Wf(MountText(st, v, c))
  {
    var n := st.next;
    var nodes0 := st.nodes[n := NewNode(TextNode(ToText(v)))];
    if c in st.nodes {
      AppendChildEffect(nodes0, c, n);
    }
  }

  /** Mounting into `c` (in append mode) keeps the frame `Grows` and well-formedness. */
  lemma {:induction false} MountGrows(env: Env, st: State, v: Value, c: NodeId, fuel: nat)
    requires Wf(st)
    ensures var r := Mount(env, st, v, c, Append, fuel); Grows(st, r, c) && Wf(r)
    decreases fuel, Size(v), 1, 0
  {
    var r := Mount(env, st, v, c, Append, fuel);
    if st.thrown {
      GrowsRefl(st, r, c);
    } else {
      match v
      case Absent => GrowsRefl(st, r, c);
      case Str(_) => MountTextGrows(st, v, c);
      case Num(_) => MountTextGrows(st, v, c);
      case Arr(items) => MountAllGrows(env, st, items, c, fuel);
      case El(id, tag, props, children) =>
        match tag
        case Comp(fid, name) =>
          if fuel == 0 {
            GrowsRefl(st, r, c);
          } else {
            var component := env.expand(fid, props, children);
            var st1 := st.(components := st.components + [Record(name, component)]);
            GrowsRefl(st, st1.(components := st.components), c);
            assert Grows(st, st1, c);
            MountGrows(env, st1, component, c, fuel - 1);
            GrowsTrans(st, st1, r, c);
          }
        case Prim(t) =>
          MountHostGrows(env, st, v, c, Append, fuel);
    }
  }

  lemma {:induction false} MountAllGrows(env: Env, st: State, vs: seq<Value>, c: NodeId, fuel: nat)
    requires Wf(st)
    ensures var r := MountAll(env, st, vs, c, fuel); Grows(st, r, c) && Wf(r)
    decreases fuel, SizeAll(vs), 2, |vs|
  {
    if vs == [] {
      GrowsRefl(st, st, c);
    } else {
      var front := vs[..|vs| - 1];
      var s := MountAll(env, st, front, c, fuel);
      MountAllGrows(env, st, front, c, fuel);
      MountGrows(env, s, vs[|vs| - 1], c, fuel);
      GrowsTrans(st, s, MountAll(env, st, vs, c, fuel), c);
    }
  }

  /** A prepared host element: a fresh parentless node with its tag, whose children are all fresh, and nothing old changed. */
  lemma {:induction false} HostPrepared(env: Env, st: State, v: Value, fuel: nat)
    requires Wf(st) && !st.thrown && v.El? && v.tag.Prim?
    ensures var n := st.next;
      var s3 := Prepared(env, st, v, fuel);
      && Wf(s3) && s3.next > n && n in s3.nodes
      && (forall m :: m in s3.nodes ==> m in st.nodes || n <= m < s3.next)
      && st.nodes.Keys <= s3.nodes.Keys
      && (forall m :: m in st.nodes ==> s3.nodes[m] == st.nodes[m])
      && s3.nodes[n].kind == ElementNode(v.tag.name)
      && s3.nodes[n].parent == None
      && (forall x :: x in s3.nodes[n].children ==> n < x < s3.next)
      && st.components <= s3.components
      && st.dom.Keys <= s3.dom.Keys
      && (forall e :: e in s3.dom ==> (e in st.dom && s3.dom[e] == st.dom[e]) || n <= s3.dom[e] < s3.next)
      && st.refs.Keys <= s3.refs.Keys
      && (forall x :: x in s3.refs ==> (x in st.refs && s3.refs[x] == st.refs[x]) || n <= s3.refs[x] < s3.next)
      && s3.previousEl == st.previousEl
    decreases fuel, Size(v), 0, 1
  {
    var n := st.next;
    var s1 := st.(nodes := st.nodes[n := NewNode(ElementNode(v.tag.name))], next := n + 1);
    var s2 := ApplyProps(s1, n, v.props);
    var s3 := Prepared(env, st, v, fuel);
    ApplyPropsFrame(s1, n, v.props);
    assert Wf(s2);
    if |v.children| > 0 {
      assert s3 == MountAll(env, s2, FlattenAll(v.children), n, fuel);
      MountAllGrows(env, s2, FlattenAll(v.children), n, fuel);
    } else {
      assert s3 == s2;
      GrowsRefl(s2, s3, n);
    }
    PreparedFrame(st, s1, s2, s3, ElementNode(v.tag.name));
  }

  /** The frame of preparing a host element, from the frames of its two steps: writing the attributes of the new node `n`, then mounting into it. */
  lemma PreparedFrame(st: State, s1: State, s2: State, s3: State, k: Kind)
    requires Wf(st)
    requires s1 == st.(nodes := st.nodes[st.next := NewNode(k)], next := st.next + 1)
    requires TouchesOnly(s1, s2, st.next) && Grows(s2, s3, st.next) && Wf(s3)
    ensures var n := st.next;
      && s3.next > n && n in s3.nodes
      && (forall m :: m in s3.nodes ==> m in st.nodes || n <= m < s3.next)
      && st.nodes.Keys <= s3.nodes.Keys
      && (forall m :: m in st.nodes ==> s3.nodes[m] == st.nodes[m])
      && s3.nodes[n].kind == k
      && s3.nodes[n].parent == None
      && (forall x :: x in s3.nodes[n].children ==> n < x < s3.next)
      && st.components <= s3.components
      && st.dom.Keys <= s3.dom.Keys
      && (forall e :: e in s3.dom ==> (e in st.dom && s3.dom[e] == st.dom[e]) || n <= s3.dom[e] < s3.next)
      && st.refs.Keys <= s3.refs.Keys
      && (forall x :: x in s3.refs ==> (x in st.refs && s3.refs[x] == st.refs[x]) || n <= s3.refs[x] < s3.next)
      && s3.previousEl == st.previousEl
  {
    var n := st.next;
    var ch := s3.nodes[n].children;
    assert s2.nodes[n].children == [];
    forall x | x in ch ensures n < x < s3.next {
      var i :| 0 <= i < |ch| && ch[i] == x;
    }
  }

  /** Preparing a host element: a fresh node with its tag, its attributes written, then its flattened children mounted into it. */
  lemma PreparedUnfold(env: Env, st: State, v: Value, fuel: nat)
    requires v.El? && v.tag.Prim?
    ensures var n := st.next;
      var s2 := ApplyProps(st.(nodes := st.nodes[n := NewNode(ElementNode(v.tag.name))], next := n + 1), n, v.props);
      Prepared(env, st, v, fuel) == if |v.children| > 0 then MountAll(env, s2, FlattenAll(v.children), n, fuel) else s2
  {
  }

  /** `mount` of a host element, once it is prepared: attach it by mode and store it as the `dom`. */
  lemma MountHostUnfold(env: Env, st: State, v: Value, c: NodeId, mode: Mode, fuel: nat)
    requires !st.thrown && v.El? && v.tag.Prim?
    ensures var s3 := Prepared(env, st, v, fuel);
      Mount(env, st, v, c, mode, fuel)
        == if s3.thrown then s3 else Attach(s3, c, st.next, mode).(dom := s3.dom[v.id := st.next])
  {
  }

  /** Mounting a host element keeps the frame `Grows` in append mode. */
  lemma {:induction false} MountHostGrows(env: Env, st: State, v: Value, c: NodeId, mode: Mode, fuel: nat)
    requires Wf(st) && !st.thrown && v.El? && v.tag.Prim? && mode == Append
    ensures var r := Mount(env, st, v, c, mode, fuel); Grows(st, r, c) && Wf(r)
    decreases fuel, Size(v), 0, 2
  {
    var n := st.next;
    var s3 := Prepared(env, st, v, fuel);
    HostPrepared(env, st, v, fuel);
    MountHostUnfold(env, st, v, c, mode, fuel);
    var r := Mount(env, st, v, c, mode, fuel);
    if s3.thrown {
      if c in st.nodes {
        assert st.nodes[c] == st.nodes[c].(children := st.nodes[c].children);
      }
    } else {
      assert r == s3.(nodes := Appended(s3.nodes, c, n), dom := s3.dom[v.id := n]);
      if c in st.nodes {
        AppendChildEffect(s3.nodes, c, n);
        var ca := st.nodes[c].children;
        assert r.nodes[c].children == ca + [n];
        assert ca <= ca + [n];
      }
    }
  }

  // ---------------------------------------------------------------------
  // The cases of `mount`.
  // ---------------------------------------------------------------------

  /**
   * A string or number appends exactly one new text node, holding its text,
   * as the last child of `c`, whatever the mode; no other node, no `dom`, no
   * `current` and no component record changes.
   */
  lemma MountTextEffect(env: Env, st: State, v: Value, c: NodeId, mode: Mode, fuel: nat)
    requires Wf(st) && !st.thrown && IsText(v) && c in st.nodes
    ensures var r := Mount(env, st, v, c, mode, fuel);
      var n := st.next;
      && !r.thrown && r.next == n + 1
      && r.nodes == st.nodes[n := TextNodeFor(v, c)][c := st.nodes[c].(children := st.nodes[c].children + [n])]
      && r.dom == st.dom && r.refs == st.refs && r.components == st.components
      && r.previousEl == st.previousEl
  {
    var n := st.next;
    AppendChildEffect(st.nodes[n := NewNode(TextNode(ToText(v)))], c, n);
  }

  /** The ids `lo, lo + 1, ..., lo + k - 1`, in order. */
  function Span(lo: nat, k: nat): (r: seq<NodeId>)
    ensures |r| == k && forall i :: 0 <= i < k ==> r[i] == lo + i
  {
    if k == 0 then [] else Span(lo, k - 1) + [lo + k - 1]
  }

  /** The text node mounting `v` into `c` leaves. */
  function TextNodeFor(v: Value, c: NodeId): Node
  {
    NewNode(TextNode(if IsText(v) then ToText(v) else "")).(parent := Some(c))
  }

  /** `r` is `st` with one text node per member of `vs`, in order, appended to `c`, and nothing else changed. */
  ghost predicate TextsMounted(st: State, r: State, vs: seq<Value>, c: NodeId)
    requires c in st.nodes
  {
    && !r.thrown && Wf(r) && r.next == st.next + |vs|
    && st.nodes.Keys <= r.nodes.Keys
    && r.nodes[c].children == st.nodes[c].children + Span(st.next, |vs|)
    && HasTexts(r.nodes, st.next, vs, c)
    && (forall m :: m in st.nodes && m != c ==> r.nodes[m] == st.nodes[m])
    && r.dom == st.dom && r.refs == st.refs && r.components == st.components
  }

  /** Nodes `lo`, `lo + 1`, ... are the text nodes of `vs`, in order, with parent `c`. */
  ghost predicate HasTexts(nodes: Nodes, lo: nat, vs: seq<Value>, c: NodeId)
  {
    forall j :: lo <= j < lo + |vs| ==> j in nodes && nodes[j] == TextNodeFor(vs[j - lo], c)
  }

  lemma HasTextsStep(nodes: Nodes, after: Nodes, lo: nat, vs: seq<Value>, c: NodeId)
    requires vs != [] && c < lo
    requires HasTexts(nodes, lo, vs[..|vs| - 1], c)
    requires forall m :: m in nodes && m != c && m != lo + |vs| - 1 ==> m in after && after[m] == nodes[m]
    requires lo + |vs| - 1 in after && after[lo + |vs| - 1] == TextNodeFor(vs[|vs| - 1], c)
    ensures HasTexts(after, lo, vs, c)
  {
    forall j | lo <= j < lo + |vs| ensures j in after && after[j] == TextNodeFor(vs[j - lo], c) {
      HasTextAt(nodes, after, lo, vs, c, j);
    }
  }

  lemma HasTextAt(nodes: Nodes, after: Nodes, lo: nat, vs: seq<Value>, c: NodeId, j: nat)
    requires vs != [] && c < lo && lo <= j < lo + |vs|
    requires HasTexts(nodes, lo, vs[..|vs| - 1], c)
    requires forall m :: m in nodes && m != c && m != lo + |vs| - 1 ==> m in after && after[m] == nodes[m]
    requires lo + |vs| - 1 in after && after[lo + |vs| - 1] == TextNodeFor(vs[|vs| - 1], c)
    ensures j in after && after[j] == TextNodeFor(vs[j - lo], c)
  {
    var front := vs[..|vs| - 1];
    var i := j - lo;
    if i < |front| {
      assert vs[i] == front[i];
      assert j in nodes && nodes[j] == TextNodeFor(front[i], c);
    }
  }

  lemma TextsMountedStep(st: State, s: State, r: State, vs: seq<Value>, c: NodeId)
    requires Wf(st) && c in st.nodes && vs != []
    requires forall i :: 0 <= i < |vs| ==> IsText(vs[i])
    requires TextsMounted(st, s, vs[..|vs| - 1], c)
    requires Wf(r) && !r.thrown && r.next == s.next + 1
    requires r.nodes == s.nodes[s.next := TextNodeFor(vs[|vs| - 1], c)]
                               [c := s.nodes[c].(children := s.nodes[c].children + [s.next])]
    requires r.dom == s.dom && r.refs == s.refs && r.components == s.components
    ensures TextsMounted(st, r, vs, c)
  {
    var front := vs[..|vs| - 1];
    assert c < st.next && st.next <= s.next && c != s.next;
    assert Span(st.next, |vs|) == Span(st.next, |front|) + [s.next];
    WriteTwoFrame(s.nodes, r.nodes, c, s.next, TextNodeFor(vs[|vs| - 1], c), s.nodes[c].(children := s.nodes[c].children + [s.next]));
    HasTextsStep(s.nodes, r.nodes, st.next, vs, c);
    OneMoreFrame(st.nodes, s.nodes, r.nodes, c, s.next);
  }

  /** Writing node `k` and then node `c` keeps every other node. */
  lemma WriteTwoFrame(b: Nodes, d: Nodes, c: NodeId, k: NodeId, x: Node, y: Node)
    requires c != k && d == b[k := x][c := y]
    ensures k in d && d[k] == x && c in d && d[c] == y && b.Keys <= d.Keys
    ensures forall m :: m in b && m != c && m != k ==> m in d && d[m] == b[m]
  {
  }

  /** Old nodes other than `c` that one step kept and a second step that writes only `c` and the fresh `k` keeps too. */
  lemma OneMoreFrame(a: Nodes, b: Nodes, d: Nodes, c: NodeId, k: NodeId)
    requires k !in a
    requires forall m :: m in a && m != c ==> m in b && b[m] == a[m]
    requires forall m :: m in b && m != c && m != k ==> m in d && d[m] == b[m]
    ensures forall m :: m in a && m != c ==> m in d && d[m] == a[m]
  {
  }

  /** Mounting a list of strings and numbers appends one text node per member to `c`, in order. */
  lemma {:induction false} MountTextsEffect(env: Env, st: State, vs: seq<Value>, c: NodeId, fuel: nat)
    requires Wf(st) && !st.thrown && c in st.nodes
    requires forall i :: 0 <= i < |vs| ==> IsText(vs[i])
    ensures TextsMounted(st, MountAll(env, st, vs, c, fuel), vs, c)
    decreases |vs|
  {
    if vs == [] {
      assert st.nodes[c].children + Span(st.next, 0) == st.nodes[c].children;
    } else {
      var front := vs[..|vs| - 1];
      var last := vs[|vs| - 1];
      var s := MountAll(env, st, front, c, fuel);
      MountTextsEffect(env, st, front, c, fuel);
      MountTextEffect(env, s, last, c, Append, fuel);
      MountTextGrows(s, last, c);
      TextsMountedStep(st, s, MountAll(env, st, vs, c, fuel), vs, c);
    }
  }

  /** An array is mounted member by member into the same container, in append mode whatever `mode` was. */
  lemma MountArrayEffect(env: Env, st: State, v: Value, c: NodeId, mode: Mode, fuel: nat)
    requires v.Arr?
    ensures Mount(env, st, v, c, mode, fuel) == MountAll(env, st, v.items, c, fuel)
    ensures Mount(env, st, v, c, mode, fuel) == Mount(env, st, v, c, Append, fuel)
  {
    if st.thrown {
      MountAllThrown(env, st, v.items, c, fuel);
    }
  }

  /**
   * A component pushes one record `{ name, component }` with what it
   * returned, creates no node of its own, and mounts what it returned into
   * the same container in append mode whatever `mode` was; with no fuel left
   * (the call stack is exhausted) it throws.
   */
  lemma MountCompositeEffect(env: Env, st: State, v: Value, c: NodeId, mode: Mode, fuel: nat)
    requires Wf(st) && !st.thrown && v.El? && v.tag.Comp?
    ensures fuel == 0 ==> Mount(env, st, v, c, mode, fuel) == st.(thrown := true)
    ensures fuel > 0 ==>
      var component := env.expand(v.tag.fid, v.props, v.children);
      var pushed := st.(components := st.components + [Record(v.tag.name, component)]);
      var r := Mount(env, st, v, c, mode, fuel);
      && r == Mount(env, pushed, component, c, Append, fuel - 1)
      && r == Mount(env, st, v, c, Append, fuel)
      && |r.components| > |st.components|
      && r.components[..|st.components| + 1] == st.components + [Record(v.tag.name, component)]
  {
    if fuel > 0 {
      var component := env.expand(v.tag.fid, v.props, v.children);
      var pushed := st.(components := st.components + [Record(v.tag.name, component)]);
      MountGrows(env, pushed, component, c, fuel - 1);
      var r := Mount(env, pushed, component, c, Append, fuel - 1);
      assert pushed.components <= r.components;
    }
  }

  /**
   * A host element gets a fresh node with its tag, stored as its `dom`, whose
   * children are all fresh nodes made by mounting its children, and which
   * carries exactly the writes of its attributes: none of them threw, and the
   * node already shows every one of them. In append mode the node becomes
   * the last child of `c` and nothing else old changes; in replace mode it
   * takes `c`'s place in `c`'s parent.
   */
  lemma MountPrimitiveEffect(env: Env, st: State, v: Value, c: NodeId, mode: Mode, fuel: nat)
    requires Wf(st) && !st.thrown && v.El? && v.tag.Prim? && c in st.nodes
    requires !Mount(env, st, v, c, mode, fuel).thrown
    ensures var r := Mount(env, st, v, c, mode, fuel);
      var n := st.next;
      && n !in st.nodes && n in r.nodes && st.nodes.Keys <= r.nodes.Keys
      && v.id in r.dom && r.dom[v.id] == n
      && r.nodes[n].kind == ElementNode(v.tag.name)
      && (forall x :: x in r.nodes[n].children ==> n < x < r.next)
      && !Throws(v.props)
      && r.nodes[n].props == PropWrites(v.props) && r.nodes[n].style == StyleWrites(v.props)
      && r.nodes[n].listeners == Registered([], v.props)
      && Absorbs(r.nodes[n], v.props)
      && (mode == Append ==>
            && r.nodes[c].children == st.nodes[c].children + [n]
            && r.nodes[n].parent == Some(c)
            && (forall m :: m in st.nodes && m != c ==> r.nodes[m] == st.nodes[m]))
      && (mode == Replace && st.nodes[c].parent.Some? && st.nodes[c].parent.value in st.nodes ==>
            var q := st.nodes[c].parent.value;
            && r.nodes[q].children == ReplaceIn(st.nodes[q].children, c, n)
            && r.nodes[n].parent == Some(q)
            && (q != c ==> r.nodes[c].parent == None)
            && (forall m :: m in st.nodes && m != c && m != q ==> r.nodes[m] == st.nodes[m]))
  {
    var n := st.next;
    var s3 := Prepared(env, st, v, fuel);
    HostPrepared(env, st, v, fuel);
    PreparedAttrs(env, st, v, fuel);
    MountHostUnfold(env, st, v, c, mode, fuel);
    AttachKeepsAttrs(s3, c, n, mode);
    if mode == Append {
      AppendChildEffect(s3.nodes, c, n);
    }
  }

  /** The new node of a prepared host element carries exactly the writes of the element's attributes. */
  lemma PreparedAttrs(env: Env, st: State, v: Value, fuel: nat)
    requires Wf(st) && !st.thrown && v.El? && v.tag.Prim?
    ensures var s3 := Prepared(env, st, v, fuel);
      var n := st.next;
      !s3.thrown ==>
        && !Throws(v.props) && n in s3.nodes
        && s3.nodes[n].props == PropWrites(v.props) && s3.nodes[n].style == StyleWrites(v.props)
        && s3.nodes[n].listeners == Registered([], v.props)
        && Absorbs(s3.nodes[n], v.props)
  {
    var n := st.next;
    var s1 := st.(nodes := st.nodes[n := NewNode(ElementNode(v.tag.name))], next := n + 1);
    var s2 := ApplyProps(s1, n, v.props);
    var s3 := Prepared(env, st, v, fuel);
    var ch := FlattenAll(v.children);
    FreshNodeAttrs(s1, n, v.props);
    if |v.children| > 0 {
      assert s3 == MountAll(env, s2, ch, n, fuel);
      if !s2.thrown {
        ApplyPropsFrame(s1, n, v.props);
        MountAllGrows(env, s2, ch, n, fuel);
        GrowsKeepsAttrs(s2, s3, n);
      } else {
        assert ch[..0] == [];
        MountAllPrefixThrown(env, s2, ch, n, fuel, 0);
      }
    } else {
      assert s3 == s2;
    }
  }

  /** Applying a list of attributes to a node that has none leaves exactly their writes on it. */
  lemma FreshNodeAttrs(st: State, n: NodeId, ps: Props)
    requires !st.thrown && n in st.nodes
    requires st.nodes[n].props == map[] && st.nodes[n].style == map[] && st.nodes[n].listeners == []
    ensures var s := ApplyProps(st, n, ps);
      !s.thrown ==>
        && !Throws(ps) && n in s.nodes
        && s.nodes[n].props == PropWrites(ps) && s.nodes[n].style == StyleWrites(ps)
        && s.nodes[n].listeners == Registered([], ps)
        && Absorbs(s.nodes[n], ps)
  {
    ApplyPropsEffect(st, n, ps);
    if !Throws(ps) {
      AbsorbsAfterApply(st, n, ps);
      assert map[] + PropWrites(ps) == PropWrites(ps);
      assert map[] + StyleWrites(ps) == StyleWrites(ps);
    }
  }

  // ---------------------------------------------------------------------
  // The children a host element's node gets.
  // ---------------------------------------------------------------------

  /** Node `node` is what mounting the flat value `x` makes: a text node with its text, or an element node with its tag showing its attributes. */
  ghost predicate Depicts(node: Node, x: Value)
  {
    match x
    case Str(_) => node.kind == TextNode(ToText(x))
    case Num(_) => node.kind == TextNode(ToText(x))
    case El(_, tag, props, _) => tag.Prim? && node.kind == ElementNode(tag.name) && Absorbs(node, props)
    case _ => false
  }

  /** The nodes `ks` are, one for one and in order, the nodes mounting `vs` made, each a child of `p`. */
  ghost predicate Shows(nodes: Nodes, ks: seq<NodeId>, vs: seq<Value>, p: NodeId)
  {
    && |ks| == |vs|
    && forall i :: 0 <= i < |vs| ==> ks[i] in nodes && nodes[ks[i]].parent == Some(p) && Depicts(nodes[ks[i]], vs[i])
  }

  lemma ShowsSnoc(a: Nodes, b: Nodes, ks: seq<NodeId>, vs: seq<Value>, p: NodeId, k: NodeId)
    requires vs != [] && Shows(a, ks, vs[..|vs| - 1], p)
    requires forall i :: 0 <= i < |ks| ==> ks[i] in b && b[ks[i]] == a[ks[i]]
    requires k in b && b[k].parent == Some(p) && Depicts(b[k], vs[|vs| - 1])
    ensures Shows(b, ks + [k], vs, p)
  {
    forall i | 0 <= i < |vs|
      ensures (ks + [k])[i] in b && b[(ks + [k])[i]].parent == Some(p) && Depicts(b[(ks + [k])[i]], vs[i])
    {
      if i < |ks| {
        assert (ks + [k])[i] == ks[i] && vs[..|vs| - 1][i] == vs[i];
      }
    }
  }

  /**
   * Mounting one value that is not an array, in a tree without components:
   * unless it throws, exactly one node is made for it, the next fresh one,
   * appended as the last child of `c`, and it depicts the value.
   */
  lemma MountOneShows(env: Env, st: State, x: Value, c: NodeId, fuel: nat)
    requires Wf(st) && !st.thrown && c in st.nodes && !x.Arr? && HostOnly(x)
    ensures var r := Mount(env, st, x, c, Append, fuel);
      !r.thrown ==>
        && c in r.nodes && r.nodes[c].children == st.nodes[c].children + [st.next]
        && st.next in r.nodes && r.nodes[st.next].parent == Some(c) && Depicts(r.nodes[st.next], x)
  {
    if IsText(x) {
      MountTextEffect(env, st, x, c, Append, fuel);
    } else if x.El? {
      assert x in Elems(x);
      if !Mount(env, st, x, c, Append, fuel).thrown {
        MountPrimitiveEffect(env, st, x, c, Append, fuel);
      }
    }
  }

  /**
   * Mounting a flat list without components into `c`: unless it throws, the
   * children `c` gains are, one for one and in order, nodes depicting the
   * members of the list.
   */
  lemma {:induction false} MountAllShows(env: Env, st: State, vs: seq<Value>, c: NodeId, fuel: nat)
    requires Wf(st) && c in st.nodes && IsFlat(vs) && AllHost(ElemsAll(vs))
    ensures var r := MountAll(env, st, vs, c, fuel);
      !r.thrown ==>
        && c in r.nodes && |st.nodes[c].children| <= |r.nodes[c].children|
        && Shows(r.nodes, r.nodes[c].children[|st.nodes[c].children|..], vs, c)
    decreases |vs|
  {
    if vs != [] {
      AllHostSplit(vs);
      MountAllShows(env, st, vs[..|vs| - 1], c, fuel);
      MountAllShowsStep(env, st, vs, c, fuel);
    }
  }

  lemma AllHostSplit(vs: seq<Value>)
    requires vs != [] && AllHost(ElemsAll(vs))
    ensures AllHost(ElemsAll(vs[..|vs| - 1])) && HostOnly(vs[|vs| - 1])
  {
    assert ElemsAll(vs) == ElemsAll(vs[..|vs| - 1]) + Elems(vs[|vs| - 1]);
  }

  /** One step of `MountAllShows`: the last member of the list. */
  lemma MountAllShowsStep(env: Env, st: State, vs: seq<Value>, c: NodeId, fuel: nat)
    requires Wf(st) && c in st.nodes && vs != [] && !vs[|vs| - 1].Arr? && HostOnly(vs[|vs| - 1])
    requires var s := MountAll(env, st, vs[..|vs| - 1], c, fuel);
      !s.thrown ==>
        && c in s.nodes && |st.nodes[c].children| <= |s.nodes[c].children|
        && Shows(s.nodes, s.nodes[c].children[|st.nodes[c].children|..], vs[..|vs| - 1], c)
    ensures var r := MountAll(env, st, vs, c, fuel);
      !r.thrown ==>
        && c in r.nodes && |st.nodes[c].children| <= |r.nodes[c].children|
        && Shows(r.nodes, r.nodes[c].children[|st.nodes[c].children|..], vs, c)
  {
    var front := vs[..|vs| - 1];
    var last := vs[|vs| - 1];
    var s := MountAll(env, st, front, c, fuel);
    var r := MountAll(env, st, vs, c, fuel);
    assert r == Mount(env, s, last, c, Append, fuel);
    MountAllGrows(env, st, front, c, fuel);
    if !s.thrown {
      MountOneShows(env, s, last, c, fuel);
      MountGrows(env, s, last, c, fuel);
      if !r.thrown {
        ShowsAppendOne(st, s, r, vs, c);
      }
    }
  }

  /** One more value mounted after a prefix keeps what mounting the prefix showed and shows the new node. */
  lemma ShowsAppendOne(st: State, s: State, r: State, vs: seq<Value>, c: NodeId)
    requires Wf(st) && c in st.nodes && c in s.nodes && c in r.nodes
    requires Grows(st, s, c) && Grows(s, r, c)
    requires |st.nodes[c].children| <= |s.nodes[c].children|
    requires vs != [] && Shows(s.nodes, s.nodes[c].children[|st.nodes[c].children|..], vs[..|vs| - 1], c)
    requires r.nodes[c].children == s.nodes[c].children + [s.next]
    requires s.next in r.nodes && r.nodes[s.next].parent == Some(c) && Depicts(r.nodes[s.next], vs[|vs| - 1])
    ensures |st.nodes[c].children| <= |r.nodes[c].children|
    ensures Shows(r.nodes, r.nodes[c].children[|st.nodes[c].children|..], vs, c)
  {
    var k0 := |st.nodes[c].children|;
    var ks := s.nodes[c].children[k0..];
    assert c < st.next;
    forall i | 0 <= i < |ks| ensures ks[i] in r.nodes && r.nodes[ks[i]] == s.nodes[ks[i]] {
      assert ks[i] == s.nodes[c].children[k0 + i];
      assert st.next <= ks[i];
    }
    ShowsSnoc(s.nodes, r.nodes, ks, vs, c, s.next);
    assert r.nodes[c].children[k0..] == ks + [s.next];
  }

  /**
   * The children of a host element's node, in a tree without components:
   * unless mounting throws, they are, one for one and in order, nodes
   * depicting the members of its flattened children, in either mode.
   */
  lemma MountHostChildren(env: Env, st: State, v: Value, c: NodeId, mode: Mode, fuel: nat)
    requires Wf(st) && !st.thrown && v.El? && v.tag.Prim? && c in st.nodes && HostOnly(v)
    ensures var r := Mount(env, st, v, c, mode, fuel);
      !r.thrown ==> st.next in r.nodes && Shows(r.nodes, r.nodes[st.next].children, FlattenAll(v.children), st.next)
  {
    var n := st.next;
    var s3 := Prepared(env, st, v, fuel);
    var r := Mount(env, st, v, c, mode, fuel);
    MountHostUnfold(env, st, v, c, mode, fuel);
    HostPrepared(env, st, v, fuel);
    PreparedShows(env, st, v, fuel);
    if !s3.thrown {
      assert c < n;
      var ks := s3.nodes[n].children;
      forall i | 0 <= i < |ks| ensures ks[i] != c && ks[i] != n {
        assert ks[i] in ks;
      }
      AttachFresh(s3, c, n, mode);
      ShowsRelinked(s3.nodes, r.nodes, s3.nodes[n].children, FlattenAll(v.children), n, c);
    }
  }

  /** What preparing a host element leaves under its new node. */
  lemma PreparedShows(env: Env, st: State, v: Value, fuel: nat)
    requires Wf(st) && !st.thrown && v.El? && v.tag.Prim? && HostOnly(v)
    ensures var s3 := Prepared(env, st, v, fuel);
      !s3.thrown ==> st.next in s3.nodes && Shows(s3.nodes, s3.nodes[st.next].children, FlattenAll(v.children), st.next)
  {
    var n := st.next;
    var s1 := st.(nodes := st.nodes[n := NewNode(ElementNode(v.tag.name))], next := n + 1);
    var s2 := ApplyProps(s1, n, v.props);
    var s3 := Prepared(env, st, v, fuel);
    var ch := FlattenAll(v.children);
    ApplyPropsFrame(s1, n, v.props);
    assert Wf(s2) && s2.nodes[n].children == [];
    if |v.children| > 0 {
      assert s3 == MountAll(env, s2, ch, n, fuel);
      ElemsFlattenAll(v.children);
      assert v in Elems(v);
      AllHostSubset(Elems(v), ElemsAll(ch));
      MountAllShows(env, s2, ch, n, fuel);
      if !s3.thrown {
        MountAllGrows(env, s2, ch, n, fuel);
        assert s3.nodes[n].children[0..] == s3.nodes[n].children;
      }
    } else {
      assert s3 == s2 && ch == [];
    }
  }

  /** Attaching a new, parentless node changes only links: no node's kind, attributes or other fields, except the parents of the two and the children lists; the new node keeps its children. */
  lemma AttachFresh(st: State, c: NodeId, n: NodeId, mode: Mode)
    requires n in st.nodes && st.nodes[n].parent == None && c != n
    ensures var b := Attach(st, c, n, mode).nodes;
      && b.Keys == st.nodes.Keys
      && b[n].children == st.nodes[n].children
      && (forall m :: m in st.nodes && m != c && m != n ==> b[m] == st.nodes[m].(children := b[m].children))
  {
  }

  lemma ShowsRelinked(a: Nodes, b: Nodes, ks: seq<NodeId>, vs: seq<Value>, p: NodeId, c: NodeId)
    requires Shows(a, ks, vs, p)
    requires forall i :: 0 <= i < |ks| ==> ks[i] != c && ks[i] != p
    requires b.Keys == a.Keys
    requires forall m :: m in a && m != c && m != p ==> b[m] == a[m].(children := b[m].children)
    ensures Shows(b, ks, vs, p)
  {
    forall i | 0 <= i < |vs| ensures ks[i] in b && b[ks[i]].parent == Some(p) && Depicts(b[ks[i]], vs[i]) {
      var m := ks[i];
      assert b[m] == a[m].(children := b[m].children);
    }
  }
}
