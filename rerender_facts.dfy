/**
 * Rendering the same tree again. `mount` leaves every host element's node
 * showing all of that element's attributes; `update` of a tree against
 * itself then re-applies attributes the nodes already show and walks the
 * children pairwise, so it changes no node and no `dom`. Growing an array
 * at its end leaves the nodes of the common prefix untouched.
 *
 * These facts are about trees without components: `update` reconciles a
 * component against the first record with its name in `components`, not
 * against its own earlier output.
 */
module RerenderFacts {
  import opened Wrappers
  import opened Elements
  import opened Dom
  import opened Session
  import opened Attributes
  import opened Reconcile
  import opened MountFacts
  import opened UpdateFacts

  /** Every element of `es` that has a `dom` has it in the table, showing all of the element's attributes. */
  ghost predicate DomAbsorbs(nodes: Nodes, dom: map<ElemId, NodeId>, es: set<Value>)
  {
    forall e :: e in es && e.El? && e.id in dom ==> dom[e.id] in nodes && Absorbs(nodes[dom[e.id]], e.props)
  }

  /** Every element of `es` has a `dom`. */
  ghost predicate Covers(dom: map<ElemId, NodeId>, es: set<Value>)
  {
    forall e :: e in es && e.El? ==> e.id in dom
  }

  /** Moving nodes around, or adding nodes, keeps what the `dom`s show. */
  lemma DomAbsorbsMoved(nodes: Nodes, nodes': Nodes, dom: map<ElemId, NodeId>, es: set<Value>)
    requires DomAbsorbs(nodes, dom, es) && SameAttrs(nodes, nodes')
    ensures DomAbsorbs(nodes', dom, es)
  {
    forall e | e in es && e.El? && e.id in dom
      ensures dom[e.id] in nodes' && Absorbs(nodes'[dom[e.id]], e.props)
    {
      var m := dom[e.id];
      assert nodes'[m].props == nodes[m].props && nodes'[m].style == nodes[m].style;
      assert nodes'[m].listeners == nodes[m].listeners;
    }
  }

  // ---------------------------------------------------------------------
  // After a mount, each element's node shows its attributes.
  // ---------------------------------------------------------------------

  /**
   * Mounting a tree without components, when no two of its elements (or of
   * those mounted before) share an id without being the same element:
   * unless an exception unwinds, every element of the tree gets a `dom`,
   * and every element's `dom` shows all of its attributes.
   */
  lemma {:induction false} MountSettles(env: Env, st: State, v: Value, c: NodeId, fuel: nat, es: set<Value>)
    requires Wf(st) && HostOnly(v) && Coherent(es + Elems(v)) && DomAbsorbs(st.nodes, st.dom, es)
    ensures var r := Mount(env, st, v, c, Append, fuel);
      !r.thrown ==> DomAbsorbs(r.nodes, r.dom, es + Elems(v)) && Covers(r.dom, Elems(v))
    decreases fuel, Size(v), 1, 0
  {
    if !st.thrown {
      match v
      case Absent =>
      case Str(_) =>
        MountTextGrows(st, v, c);
        GrowsKeepsAttrs(st, MountText(st, v, c), c);
        DomAbsorbsMoved(st.nodes, MountText(st, v, c).nodes, st.dom, es);
        assert es + Elems(v) == es;
      case Num(_) =>
        MountTextGrows(st, v, c);
        GrowsKeepsAttrs(st, MountText(st, v, c), c);
        DomAbsorbsMoved(st.nodes, MountText(st, v, c).nodes, st.dom, es);
        assert es + Elems(v) == es;
      case Arr(items) =>
        MountAllSettles(env, st, items, c, fuel, es);
      case El(_, _, _, _) =>
        assert v in Elems(v);
        MountHostSettles(env, st, v, c, Append, fuel, es);
    }
  }

  lemma {:induction false} MountAllSettles(env: Env, st: State, vs: seq<Value>, c: NodeId, fuel: nat, es: set<Value>)
    requires Wf(st) && AllHost(ElemsAll(vs)) && Coherent(es + ElemsAll(vs)) && DomAbsorbs(st.nodes, st.dom, es)
    ensures var r := MountAll(env, st, vs, c, fuel);
      !r.thrown ==> DomAbsorbs(r.nodes, r.dom, es + ElemsAll(vs)) && Covers(r.dom, ElemsAll(vs))
    decreases fuel, SizeAll(vs), 2, |vs|
  {
    if vs == [] {
      assert es + ElemsAll(vs) == es;
    } else {
      var front := vs[..|vs| - 1];
      var last := vs[|vs| - 1];
      var s := MountAll(env, st, front, c, fuel);
      assert ElemsAll(vs) == ElemsAll(front) + Elems(last);
      MountAllSettles(env, st, front, c, fuel, es);
      MountAllGrows(env, st, front, c, fuel);
      if !s.thrown {
        assert es + ElemsAll(front) + Elems(last) == es + ElemsAll(vs);
        MountSettles(env, s, last, c, fuel, es + ElemsAll(front));
        MountGrows(env, s, last, c, fuel);
      }
    }
  }

  /** The host-element case of `MountSettles`, in either mode. */
  lemma {:induction false} MountHostSettles(env: Env, st: State, v: Value, c: NodeId, mode: Mode, fuel: nat,
                                            es: set<Value>)
    requires Wf(st) && !st.thrown && v.El? && v.tag.Prim?
    requires HostOnly(v) && Coherent(es + Elems(v)) && DomAbsorbs(st.nodes, st.dom, es)
    ensures var r := Mount(env, st, v, c, mode, fuel);
      !r.thrown ==> DomAbsorbs(r.nodes, r.dom, es + Elems(v)) && Covers(r.dom, Elems(v))
    decreases fuel, Size(v), 0, 2
  {
    var n := st.next;
    var s3 := Prepared(env, st, v, fuel);
    var r := Mount(env, st, v, c, mode, fuel);
    var inner := ElemsAll(FlattenAll(v.children));
    MountHostUnfold(env, st, v, c, mode, fuel);
    ElemsFlattenAll(v.children);
    assert Elems(v) == {v} + inner;
    PreparedSettles(env, st, v, fuel, es);
    if !s3.thrown {
      AttachKeepsAttrs(s3, c, n, mode);
      var a := Attach(s3, c, n, mode);
      DomAbsorbsMoved(s3.nodes, a.nodes, s3.dom, es + inner);
      assert r == a.(dom := s3.dom[v.id := n]);
      assert Absorbs(a.nodes[n], v.props);
      forall e | e in es + Elems(v) && e.El? && e.id in r.dom
        ensures r.dom[e.id] in r.nodes && Absorbs(r.nodes[r.dom[e.id]], e.props)
      {
        if e.id == v.id {
          assert e == v;
        } else {
          assert e in es + inner;
        }
      }
    }
  }

  /**
   * A host element once prepared: its new node shows all of its attributes,
   * and its children are mounted with their `dom`s showing theirs.
   */
  lemma {:induction false} PreparedSettles(env: Env, st: State, v: Value, fuel: nat, es: set<Value>)
    requires Wf(st) && !st.thrown && v.El? && v.tag.Prim?
    requires HostOnly(v) && Coherent(es + Elems(v)) && DomAbsorbs(st.nodes, st.dom, es)
    ensures var s3 := Prepared(env, st, v, fuel);
      var inner := ElemsAll(FlattenAll(v.children));
      !s3.thrown ==>
        && st.next in s3.nodes && Absorbs(s3.nodes[st.next], v.props)
        && DomAbsorbs(s3.nodes, s3.dom, es + inner) && Covers(s3.dom, inner)
    decreases fuel, Size(v), 0, 1
  {
    var n := st.next;
    var s1 := st.(nodes := st.nodes[n := NewNode(ElementNode(v.tag.name))], next := n + 1);
    var s2 := ApplyProps(s1, n, v.props);
    var s3 := Prepared(env, st, v, fuel);
    var ch := FlattenAll(v.children);
    PreparedUnfold(env, st, v, fuel);
    InnerElems(v, es);
    AppliedSettles(st, v, es);
    if |v.children| > 0 {
      ChildrenSettles(env, s2, ch, n, v.props, fuel, es);
    } else {
      assert s3 == s2;
      assert ch == [];
      assert es + ElemsAll(ch) == es;
    }
  }

  /** The elements under a host element's children inherit its coherence and its lack of components. */
  lemma InnerElems(v: Value, es: set<Value>)
    requires v.El? && HostOnly(v) && Coherent(es + Elems(v))
    ensures var inner := ElemsAll(FlattenAll(v.children)); AllHost(inner) && Coherent(es + inner)
  {
    var ch := FlattenAll(v.children);
    ElemsFlattenAll(v.children);
    assert ElemsAll(ch) <= Elems(v);
    CoherentSubset(es + Elems(v), es + ElemsAll(ch));
    AllHostSubset(Elems(v), ElemsAll(ch));
  }

  /** Mounting the children into the new node keeps what it shows, and their `dom`s show their attributes. */
  lemma {:induction false} ChildrenSettles(env: Env, s2: State, ch: seq<Value>, n: NodeId, ps: Props, fuel: nat,
                                           es: set<Value>)
    requires Wf(s2) && n in s2.nodes && (!s2.thrown ==> Absorbs(s2.nodes[n], ps))
    requires AllHost(ElemsAll(ch)) && Coherent(es + ElemsAll(ch)) && DomAbsorbs(s2.nodes, s2.dom, es)
    ensures var s3 := MountAll(env, s2, ch, n, fuel);
      !s3.thrown ==>
        && n in s3.nodes && Absorbs(s3.nodes[n], ps)
        && DomAbsorbs(s3.nodes, s3.dom, es + ElemsAll(ch)) && Covers(s3.dom, ElemsAll(ch))
    decreases fuel, SizeAll(ch), 3, 0
  {
    var s3 := MountAll(env, s2, ch, n, fuel);
    if s2.thrown {
      MountAllThrown(env, s2, ch, n, fuel);
    } else {
      MountAllSettles(env, s2, ch, n, fuel, es);
      MountAllGrows(env, s2, ch, n, fuel);
      GrowsKeepsAttrs(s2, s3, n);
    }
  }

  /** The new node of a host element, with its attributes applied: it shows them, and the old `dom`s still show theirs. */
  lemma AppliedSettles(st: State, v: Value, es: set<Value>)
    requires Wf(st) && !st.thrown && v.El? && v.tag.Prim? && DomAbsorbs(st.nodes, st.dom, es)
    ensures var n := st.next;
      var s1 := st.(nodes := st.nodes[n := NewNode(ElementNode(v.tag.name))], next := n + 1);
      var s2 := ApplyProps(s1, n, v.props);
      && Wf(s2) && n in s2.nodes && s2.next == n + 1 && DomAbsorbs(s2.nodes, s2.dom, es)
      && (!s2.thrown ==> Absorbs(s2.nodes[n], v.props))
  {
    var n := st.next;
    var s1 := st.(nodes := st.nodes[n := NewNode(ElementNode(v.tag.name))], next := n + 1);
    var s2 := ApplyProps(s1, n, v.props);
    ApplyPropsFrame(s1, n, v.props);
    ApplyPropsEffect(s1, n, v.props);
    forall e | e in es && e.El? && e.id in s2.dom
      ensures s2.dom[e.id] in s2.nodes && Absorbs(s2.nodes[s2.dom[e.id]], e.props)
    {
      assert s2.dom[e.id] in st.nodes;
    }
    if !s2.thrown {
      AbsorbsAfterApply(s1, n, v.props);
    }
  }

  // ---------------------------------------------------------------------
  // Updating a tree against itself.
  // ---------------------------------------------------------------------

  /**
   * `update` of a tree without components against itself, when every
   * element's `dom` already shows the element's attributes: no node, no
   * `dom`, no component record and no other part of the state changes; only
   * ref holders named by the attributes are pointed at their nodes again.
   */
  lemma {:induction false} UpdateSame(env: Env, st: State, v: Value, d: Option<NodeId>, k: nat, fuel: nat)
    requires HostOnly(v) && DomAbsorbs(st.nodes, st.dom, Elems(v))
    ensures var r := Update(env, st, v, v, d, k, fuel); r == st.(refs := r.refs)
    decreases fuel, Size(v) + Size(v), 1, 0
  {
    if st.thrown || env.root.None? {
    } else if v.Arr? {
      var fv := Flatten(v);
      ElemsFlatten(v);
      assert Max(|fv|, |fv|) == |fv|;
      UpdateListSame(env, st, fv, ArrayParent(st, fv, d), |fv|, fuel);
    } else if Falsy(v) || IsText(v) {
    } else {
      assert v in Elems(v);
      UpdateHostSame(env, st, v, d, k, fuel);
    }
  }

  lemma {:induction false} UpdateHostSame(env: Env, st: State, v: Value, d: Option<NodeId>, k: nat, fuel: nat)
    requires !st.thrown && env.root.Some? && v.El? && v.tag.Prim? && !Falsy(v)
    requires HostOnly(v) && DomAbsorbs(st.nodes, st.dom, Elems(v))
    ensures var r := Update(env, st, v, v, d, k, fuel); r == st.(refs := r.refs)
    decreases fuel, Size(v) + Size(v), 0, 0
  {
    assert v in Elems(v);
    var s1 := if v.id in st.dom then ApplyProps(st, st.dom[v.id], v.props) else st;
    if v.id in st.dom {
      ApplyPropsAbsorbed(st, st.dom[v.id], v.props);
    }
    assert s1 == st.(refs := s1.refs);
    var ch := v.children;
    assert ElemsAll(ch) <= Elems(v);
    UpdateChildrenSame(env, s1, ch, v.id, |ch|, fuel);
    var s2 := UpdateChildren(env, s1, ch, ch, v.id, |ch|, fuel);
    assert s2 == st.(refs := s2.refs);
    if v.id in s2.dom {
      assert s2.dom[v.id := s2.dom[v.id]] == s2.dom;
    } else {
      assert s2.dom - {v.id} == s2.dom;
    }
  }

  /** The array walk of `update` over a list and itself. */
  lemma {:induction false} UpdateListSame(env: Env, st: State, vs: seq<Value>, parent: Option<NodeId>, n: nat,
                                          fuel: nat)
    requires AllHost(ElemsAll(vs)) && DomAbsorbs(st.nodes, st.dom, ElemsAll(vs))
    ensures var r := UpdateList(env, st, vs, vs, parent, n, fuel); r == st.(refs := r.refs)
    decreases fuel, SizeAll(vs) + SizeAll(vs), 2, n
  {
    if n > 0 {
      var s := UpdateList(env, st, vs, vs, parent, n - 1, fuel);
      UpdateListSame(env, st, vs, parent, n - 1, fuel);
      SizeAt(vs, n - 1);
      ElemsAt(vs, n - 1);
      UpdateSame(env, s, At(vs, n - 1), parent, 0, fuel);
    }
  }

  /** The children loop of `update` over a list and itself. */
  lemma {:induction false} UpdateChildrenSame(env: Env, st: State, vs: seq<Value>, pid: ElemId, n: nat, fuel: nat)
    requires AllHost(ElemsAll(vs)) && DomAbsorbs(st.nodes, st.dom, ElemsAll(vs))
    ensures var r := UpdateChildren(env, st, vs, vs, pid, n, fuel); r == st.(refs := r.refs)
    decreases fuel, SizeAll(vs) + SizeAll(vs), 2, n
  {
    if n > 0 {
      var s := UpdateChildren(env, st, vs, vs, pid, n - 1, fuel);
      UpdateChildrenSame(env, st, vs, pid, n - 1, fuel);
      SizeAt(vs, n - 1);
      ElemsAt(vs, n - 1);
      UpdateSame(env, s, At(vs, n - 1), DomOf(s, pid), n - 1, fuel);
    }
  }

  // ---------------------------------------------------------------------
  // Rendering the same tree twice.
  // ---------------------------------------------------------------------

  /**
   * `render` of the tree that is already the previous tree, when every
   * element's `dom` shows its attributes: only ref holders may change.
   */
  lemma RenderSameAgain(env: Env, st: State, v: Value, c: NodeId, fuel: nat)
    requires !v.Arr? && !Falsy(v) && st.previousEl == v
    requires HostOnly(v) && DomAbsorbs(st.nodes, st.dom, Elems(v))
    ensures var r := Render(env, st, v, c, fuel); r == st.(refs := r.refs)
  {
    UpdateSame(env, st, v, None, 0, fuel);
  }

  /**
   * `render(v, c)` twice from a state with no previous tree, for a truthy
   * tree without components: the second call changes no node, no `dom`, no
   * record and not `previousEl`; only ref holders may change.
   */
  lemma RenderTwice(env: Env, st: State, v: Value, c: NodeId, fuel: nat)
    requires Wf(st) && Falsy(st.previousEl) && !v.Arr? && !Falsy(v)
    requires HostOnly(v) && Coherent(Elems(v))
    ensures var r1 := Render(env, st, v, c, fuel);
      var r2 := Render(env, r1, v, c, fuel);
      !r1.thrown ==> r2 == r1.(refs := r2.refs)
  {
    if !st.thrown {
      var st0 := st.(components := []);
      assert DomAbsorbs(st0.nodes, st0.dom, {});
      assert {} + Elems(v) == Elems(v);
      MountSettles(env, st0, v, c, fuel, {});
      var r1 := Render(env, st, v, c, fuel);
      if !r1.thrown {
        RenderSameAgain(env, r1, v, c, fuel);
      }
    }
  }

  // ---------------------------------------------------------------------
  // Growing an array at its end.
  // ---------------------------------------------------------------------

  /** The walk over two lists that agree on their first `n` positions is the walk over the shorter one and itself. */
  lemma {:induction false} UpdateListAgree(env: Env, st: State, news: seq<Value>, prevs: seq<Value>,
                                           parent: Option<NodeId>, n: nat, fuel: nat)
    requires n <= |prevs| && prevs <= news
    ensures UpdateList(env, st, news, prevs, parent, n, fuel) == UpdateList(env, st, prevs, prevs, parent, n, fuel)
    decreases n
  {
    if n > 0 {
      UpdateListAgree(env, st, news, prevs, parent, n - 1, fuel);
      assert At(news, n - 1) == At(prevs, n - 1);
    }
  }

  /**
   * Growing an array at its end (`[a, b]` to `[a, b, c]`), when the old tree
   * has no components and its `dom`s show their attributes: the common
   * positions change no node and no `dom`, and the extra entries are then
   * mounted into the parent, so every old node other than the parent is left
   * untouched and the parent only gains fresh children.
   */
  lemma UpdateArrayKeepsPrefix(env: Env, st: State, nw: Value, prev: Value, d: Option<NodeId>, k: nat, fuel: nat)
    requires Wf(st) && !st.thrown && env.root.Some? && (nw.Arr? || prev.Arr?)
    requires Flatten(prev) <= Flatten(nw)
    requires HostOnly(prev) && DomAbsorbs(st.nodes, st.dom, Elems(prev))
    ensures var fp := Flatten(prev);
      var parent := ArrayParent(st, fp, d);
      var common := UpdateList(env, st, Flatten(nw), fp, parent, |fp|, fuel);
      var r := Update(env, st, nw, prev, d, k, fuel);
      && common == st.(refs := common.refs)
      && (parent.Some? ==> Grows(common, r, parent.value))
      && (parent.None? ==> r == common)
  {
    var fn, fp := Flatten(nw), Flatten(prev);
    var parent := ArrayParent(st, fp, d);
    var common := UpdateList(env, st, fn, fp, parent, |fp|, fuel);
    UpdateArrayGrows(env, st, nw, prev, d, k, fuel);
    UpdateListAgree(env, st, fn, fp, parent, |fp|, fuel);
    ElemsFlatten(prev);
    UpdateListSame(env, st, fp, parent, |fp|, fuel);
    UpdateListKeeps(env, st, fn, fp, parent, |fp|, fuel);
    if parent.Some? {
      MountAllGrows(env, common, Truthy(fn[|fp|..]), parent.value, fuel);
    }
  }
}
