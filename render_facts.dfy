/**
 * What `render` of react/render.tsx does: the first call (no previous tree)
 * clears the component registry and mounts; later calls update against the
 * previous tree, with no parent node; afterwards the rendered value is the
 * previous tree. A top-level array renders its members one after another.
 */
module RenderFacts {
  import opened Wrappers
  import opened Elements
  import opened Dom
  import opened Session
  import opened Reconcile
  import opened MountFacts
  import opened UpdateFacts

  /**
   * A value that is not an array: with no previous tree, `render` is a mount
   * into `c` from an emptied registry; otherwise it is an update against the
   * previous tree. Either way `previousEl` becomes `v`, unless an exception
   * unwinds, in which case it stays as it was.
   */
  lemma RenderEffect(env: Env, st: State, v: Value, c: NodeId, fuel: nat)
    requires Wf(st) && !st.thrown && !v.Arr?
    ensures var r := Render(env, st, v, c, fuel);
      && (Falsy(st.previousEl) ==>
            && r.(previousEl := st.previousEl) == Mount(env, st.(components := []), v, c, Append, fuel)
            && Grows(st.(components := []), r.(previousEl := st.previousEl), c))
      && (!Falsy(st.previousEl) ==>
            r.(previousEl := st.previousEl) == Update(env, st, v, st.previousEl, None, 0, fuel))
      && (!r.thrown ==> r.previousEl == v)
      && (r.thrown ==> r.previousEl == st.previousEl)
      && Wf(r)
  {
    if Falsy(st.previousEl) {
      MountGrows(env, st.(components := []), v, c, fuel);
    } else {
      UpdateKeeps(env, st, v, st.previousEl, None, 0, fuel);
    }
  }

  /** Every render, of any value, keeps the state well formed. */
  lemma {:induction false} RenderWf(env: Env, st: State, v: Value, c: NodeId, fuel: nat)
    requires Wf(st)
    ensures Wf(Render(env, st, v, c, fuel))
    decreases Size(v), 0, 0
  {
    if !st.thrown {
      if v.Arr? {
        RenderAllWf(env, st, v.items, c, fuel);
      } else {
        RenderEffect(env, st, v, c, fuel);
      }
    }
  }

  lemma {:induction false} RenderAllWf(env: Env, st: State, vs: seq<Value>, c: NodeId, fuel: nat)
    requires Wf(st)
    ensures Wf(RenderAll(env, st, vs, c, fuel))
    decreases SizeAll(vs), 1, |vs|
  {
    if vs != [] {
      RenderAllWf(env, st, vs[..|vs| - 1], c, fuel);
      RenderWf(env, RenderAll(env, st, vs[..|vs| - 1], c, fuel), vs[|vs| - 1], c, fuel);
    }
  }

  /** After a top-level array renders without an exception, its last member is the previous tree. */
  lemma RenderArrayLast(env: Env, st: State, v: Value, c: NodeId, fuel: nat)
    requires v.Arr? && |v.items| > 0 && !v.items[|v.items| - 1].Arr?
    requires !Render(env, st, v, c, fuel).thrown
    ensures Render(env, st, v, c, fuel).previousEl == v.items[|v.items| - 1]
  {
    var vs := v.items;
    var s := RenderAll(env, st, vs[..|vs| - 1], c, fuel);
    assert Render(env, st, v, c, fuel) == Render(env, s, vs[|vs| - 1], c, fuel);
  }

  /**
   * A top-level array `[a, b]` rendered with no previous tree: `a` is
   * mounted, and `b` is not mounted but reconciled against `a` as the
   * previous tree.
   */
  lemma RenderPairUpdatesSecond(env: Env, st: State, a: Value, b: Value, c: NodeId, fuel: nat)
    requires Wf(st) && !st.thrown && Falsy(st.previousEl)
    requires !a.Arr? && !b.Arr? && !Falsy(a)
    ensures var s1 := Render(env, st, a, c, fuel);
      var r := Render(env, st, Arr([a, b]), c, fuel);
      && (s1.thrown ==> r == s1)
      && (!s1.thrown ==>
            && s1.(previousEl := st.previousEl) == Mount(env, st.(components := []), a, c, Append, fuel)
            && r.(previousEl := a) == Update(env, s1, b, a, None, 0, fuel))
  {
    var s1 := Render(env, st, a, c, fuel);
    assert [a, b][..1] == [a];
    assert RenderAll(env, st, [a], c, fuel) == s1;
    assert Render(env, st, Arr([a, b]), c, fuel) == Render(env, s1, b, c, fuel);
    RenderEffect(env, st, a, c, fuel);
    if !s1.thrown {
      assert s1.previousEl == a;
      RenderEffect(env, s1, b, c, fuel);
    }
  }

  /**
   * Re-rendering a top-level string or number over a previous one never
   * changes the display: `render` passes no parent node to `update`, so
   * there is no child whose text could be rewritten.
   */
  lemma RenderTextAgainNoDisplayChange(env: Env, st: State, v: Value, c: NodeId, fuel: nat)
    requires !st.thrown && IsText(v) && IsText(st.previousEl) && !Falsy(st.previousEl)
    ensures Render(env, st, v, c, fuel).nodes == st.nodes
  {
  }
}
