/**
 * What `update` of react/render.tsx does: the cases in which it changes
 * nothing, the positional walk over two arrays (entries only in the new list
 * are mounted, entries only in the old list are removed), text patching, the
 * host-element case, and the invariants every update keeps.
 */
module UpdateFacts {
  import opened Wrappers
  import opened Elements
  import opened Dom
  import opened Session
  import opened Attributes
  import opened Reconcile
  import opened MountFacts

  /**
   * What an update leaves of the registries: node ids and `components` only
   * grow, `previousEl` is untouched, and the state stays well formed.
   */
  ghost predicate Keeps(st: State, r: State)
  {
    && st.next <= r.next
    && st.nodes.Keys <= r.nodes.Keys
    && st.components <= r.components
    && r.previousEl == st.previousEl
    && Wf(r)
  }

  lemma KeepsTrans(a: State, b: State, d: State)
    requires Keeps(a, b) && Keeps(b, d)
    ensures Keeps(a, d)
  {
  }

  /** Every update keeps the registries as `Keeps` says. */
  lemma {:induction false} UpdateKeeps(env: Env, st: State, nw: Value, prev: Value, d: Option<NodeId>, k: nat, fuel: nat)
    requires Wf(st)
    ensures Keeps(st, Update(env, st, nw, prev, d, k, fuel))
    decreases fuel, Size(nw) + Size(prev), 1, 0
  {
    if st.thrown || env.root.None? {
    } else if nw.Arr? || prev.Arr? {
      var fn := Flatten(nw);
      var fp := Flatten(prev);
      UpdateListKeeps(env, st, fn, fp, ArrayParent(st, fp, d), Max(|fn|, |fp|), fuel);
    } else if Falsy(nw) {
    } else if Falsy(prev) {
      if d.Some? {
        MountGrows(env, st, nw, d.value, fuel);
      }
    } else if !SameType(nw, prev) {
    } else if IsText(nw) {
    } else if nw.tag.Comp? {
      UpdateCompositeKeeps(env, st, nw, prev, d, k, fuel);
    } else {
      UpdateHostKeeps(env, st, nw, prev, d, k, fuel);
    }
  }

  lemma {:induction false} UpdateCompositeKeeps(env: Env, st: State, nw: Value, prev: Value, d: Option<NodeId>, k: nat,
                                                fuel: nat)
    requires Wf(st) && !st.thrown && env.root.Some? && !nw.Arr? && !prev.Arr? && !Falsy(nw) && !Falsy(prev)
    requires SameType(nw, prev) && nw.El? && nw.tag.Comp?
    ensures Keeps(st, Update(env, st, nw, prev, d, k, fuel))
    decreases fuel, Size(nw) + Size(prev), 0, 0
  {
    if fuel > 0 {
      var current := env.expand(nw.tag.fid, nw.props, nw.children);
      match FindByName(st.components, nw.tag.name)
      case None =>
      case Some(rec) => UpdateKeeps(env, st, current, rec.component, None, 0, fuel - 1);
    }
  }

  lemma {:induction false} UpdateHostKeeps(env: Env, st: State, nw: Value, prev: Value, d: Option<NodeId>, k: nat,
                                           fuel: nat)
    requires Wf(st) && !st.thrown && env.root.Some? && !nw.Arr? && !prev.Arr? && !Falsy(nw) && !Falsy(prev)
    requires SameType(nw, prev) && nw.El? && nw.tag.Prim?
    ensures Keeps(st, Update(env, st, nw, prev, d, k, fuel))
    decreases fuel, Size(nw) + Size(prev), 0, 0
  {
    if |nw.children| == |prev.children| {
      var s1 := if prev.id in st.dom then ApplyProps(st, st.dom[prev.id], nw.props) else st;
      if prev.id in st.dom {
        ApplyPropsFrame(st, st.dom[prev.id], nw.props);
      }
      assert Keeps(st, s1);
      UpdateChildrenKeeps(env, s1, nw.children, prev.children, prev.id, |nw.children|, fuel);
      var s2 := UpdateChildren(env, s1, nw.children, prev.children, prev.id, |nw.children|, fuel);
      KeepsTrans(st, s1, s2);
      assert Keeps(st, s2);
    }
  }

  lemma {:induction false} UpdateListKeeps(env: Env, st: State, news: seq<Value>, prevs: seq<Value>,
                                           parent: Option<NodeId>, n: nat, fuel: nat)
    requires Wf(st)
    ensures Keeps(st, UpdateList(env, st, news, prevs, parent, n, fuel))
    decreases fuel, SizeAll(news) + SizeAll(prevs), 2, n
  {
    if n > 0 {
      var s := UpdateList(env, st, news, prevs, parent, n - 1, fuel);
      UpdateListKeeps(env, st, news, prevs, parent, n - 1, fuel);
      SizeAt(news, n - 1);
      SizeAt(prevs, n - 1);
      UpdateKeeps(env, s, At(news, n - 1), At(prevs, n - 1), parent, 0, fuel);
      KeepsTrans(st, s, UpdateList(env, st, news, prevs, parent, n, fuel));
    }
  }

  lemma {:induction false} UpdateChildrenKeeps(env: Env, st: State, news: seq<Value>, prevs: seq<Value>,
                                               pid: ElemId, n: nat, fuel: nat)
    requires Wf(st)
    ensures Keeps(st, UpdateChildren(env, st, news, prevs, pid, n, fuel))
    decreases fuel, SizeAll(news) + SizeAll(prevs), 2, n
  {
    if n > 0 {
      var s := UpdateChildren(env, st, news, prevs, pid, n - 1, fuel);
      UpdateChildrenKeeps(env, st, news, prevs, pid, n - 1, fuel);
      SizeAt(news, n - 1);
      SizeAt(prevs, n - 1);
      UpdateKeeps(env, s, At(news, n - 1), At(prevs, n - 1), DomOf(s, pid), n - 1, fuel);
      KeepsTrans(st, s, UpdateChildren(env, st, news, prevs, pid, n, fuel));
    }
  }

  // ---------------------------------------------------------------------
  // Component records are never replaced.
  // ---------------------------------------------------------------------

  /** Growing the registry at its end does not change what a name already found resolves to. */
  lemma {:induction false} FindByNameExtend(a: seq<Record>, b: seq<Record>, name: string)
    requires a <= b && FindByName(a, name).Some?
    ensures FindByName(b, name) == FindByName(a, name)
    decreases |a|
  {
    if a[0].name != name {
      assert a[1..] <= b[1..];
      FindByNameExtend(a[1..], b[1..], name);
    }
  }

  /**
   * After an update, a component name that had a record still resolves to
   * that same record: `components` is only ever pushed to, so a component is
   * always reconciled against the element it returned when first mounted.
   */
  lemma UpdateKeepsRecords(env: Env, st: State, nw: Value, prev: Value, d: Option<NodeId>, k: nat, fuel: nat,
                           name: string)
    requires Wf(st) && FindByName(st.components, name).Some?
    ensures FindByName(Update(env, st, nw, prev, d, k, fuel).components, name) == FindByName(st.components, name)
  {
    UpdateKeeps(env, st, nw, prev, d, k, fuel);
    FindByNameExtend(st.components, Update(env, st, nw, prev, d, k, fuel).components, name);
  }

  // ---------------------------------------------------------------------
  // Two arrays, walked position by position.
  // ---------------------------------------------------------------------

  /** `previous?.dom?.remove()` for an entry that has no new counterpart. */
  function UnmountOne(st: State, v: Value): State
  {
    if st.thrown then st
    else if v.El? && v.id in st.dom then st.(nodes := Detached(st.nodes, st.dom[v.id]))
    else st
  }

  /** Removing, in order, the `dom` of every element among `vs`. */
  function Unmounted(st: State, vs: seq<Value>): State
  {
    if vs == [] then st else UnmountOne(Unmounted(st, vs[..|vs| - 1]), vs[|vs| - 1])
  }

  /**
   * A falsy previous value (`undefined` past the end of a list, "" or 0):
   * the new value is mounted into the given parent in append mode, and with
   * no parent nothing happens. A falsy new value over `undefined` changes
   * nothing either.
   */
  lemma UpdateOverFalsy(env: Env, st: State, nw: Value, prev: Value, parent: Option<NodeId>, fuel: nat)
    requires !nw.Arr? && !prev.Arr? && Falsy(prev)
    ensures !Falsy(nw) && env.root.Some? && parent.Some? ==>
      Update(env, st, nw, prev, parent, 0, fuel) == Mount(env, st, nw, parent.value, Append, fuel)
    ensures !Falsy(nw) && parent.None? ==> Update(env, st, nw, prev, parent, 0, fuel) == st
    ensures Falsy(nw) && prev == Absent ==> Update(env, st, nw, prev, parent, 0, fuel) == st
  {
  }

  /** A position only the old list has: an `update` to `undefined` removes the old element's `dom`. */
  lemma UpdateToAbsent(env: Env, st: State, prev: Value, parent: Option<NodeId>, fuel: nat)
    requires env.root.Some? && !prev.Arr?
    ensures Update(env, st, Absent, prev, parent, 0, fuel) == UnmountOne(st, prev)
  {
  }

  lemma SliceSnoc(vs: seq<Value>, m: nat, n: nat)
    requires m < n <= |vs|
    ensures vs[m..n][..n - m - 1] == vs[m..n - 1] && vs[m..n][n - m - 1] == vs[n - 1]
  {
  }

  /** The members of `vs` that are not falsy, in order: `update` skips the others over `undefined`. */
  function Truthy(vs: seq<Value>): (r: seq<Value>)
    ensures |r| <= |vs|
    ensures forall i :: 0 <= i < |r| ==> !Falsy(r[i])
  {
    if vs == [] then []
    else Truthy(vs[..|vs| - 1]) + (if Falsy(vs[|vs| - 1]) then [] else [vs[|vs| - 1]])
  }

  /** Mounting the truthy members of a slice, one more member at a time. */
  lemma MountTruthySnoc(env: Env, st: State, vs: seq<Value>, m: nat, n: nat, c: NodeId, fuel: nat)
    requires m < n <= |vs|
    ensures var s := MountAll(env, st, Truthy(vs[m..n - 1]), c, fuel);
      MountAll(env, st, Truthy(vs[m..n]), c, fuel) == if Falsy(vs[n - 1]) then s else Mount(env, s, vs[n - 1], c, Append, fuel)
  {
    SliceSnoc(vs, m, n);
    var t := Truthy(vs[m..n - 1]);
    if !Falsy(vs[n - 1]) {
      assert (t + [vs[n - 1]])[..|t|] == t;
    } else {
      assert t + [] == t;
    }
  }

  /**
   * The positions only the new list has: each truthy entry is mounted
   * (appended) into the shared parent, in order, and each falsy entry is
   * skipped.
   */
  lemma {:induction false} UpdateListAppendOnly(env: Env, st: State, news: seq<Value>, prevs: seq<Value>,
                                                p: NodeId, m: nat, n: nat, fuel: nat)
    requires env.root.Some? && |prevs| <= m <= n <= |news|
    requires forall i :: m <= i < n ==> !news[i].Arr?
    ensures UpdateList(env, st, news, prevs, Some(p), n, fuel)
         == MountAll(env, UpdateList(env, st, news, prevs, Some(p), m, fuel), Truthy(news[m..n]), p, fuel)
    decreases n
  {
    if n > m {
      UpdateListAppendOnly(env, st, news, prevs, p, m, n - 1, fuel);
      UpdateListAppendStep(env, st, news, prevs, p, m, n, fuel);
    }
  }

  /** One step of `UpdateListAppendOnly`: position `n - 1` is only in the new list. */
  lemma UpdateListAppendStep(env: Env, st: State, news: seq<Value>, prevs: seq<Value>,
                             p: NodeId, m: nat, n: nat, fuel: nat)
    requires env.root.Some? && |prevs| <= m < n <= |news| && !news[n - 1].Arr?
    requires UpdateList(env, st, news, prevs, Some(p), n - 1, fuel)
          == MountAll(env, UpdateList(env, st, news, prevs, Some(p), m, fuel), Truthy(news[m..n - 1]), p, fuel)
    ensures UpdateList(env, st, news, prevs, Some(p), n, fuel)
         == MountAll(env, UpdateList(env, st, news, prevs, Some(p), m, fuel), Truthy(news[m..n]), p, fuel)
  {
    var s := UpdateList(env, st, news, prevs, Some(p), n - 1, fuel);
    var s0 := UpdateList(env, st, news, prevs, Some(p), m, fuel);
    var x := news[n - 1];
    calc {
      UpdateList(env, st, news, prevs, Some(p), n, fuel);
      == { UpdateListStep(env, st, news, prevs, Some(p), n, fuel); }
      Update(env, s, x, Absent, Some(p), 0, fuel);
      == { UpdateOverFalsy(env, s, x, Absent, Some(p), fuel); }
      if Falsy(x) then s else Mount(env, s, x, p, Append, fuel);
      == { MountTruthySnoc(env, s0, news, m, n, p, fuel); }
      MountAll(env, s0, Truthy(news[m..n]), p, fuel);
    }
  }

  /** With no parent to mount into, the positions only the new list has change nothing. */
  lemma {:induction false} UpdateListAppendNowhere(env: Env, st: State, news: seq<Value>, prevs: seq<Value>,
                                                   m: nat, n: nat, fuel: nat)
    requires |prevs| <= m <= n <= |news|
    requires forall i :: m <= i < n ==> !news[i].Arr?
    ensures UpdateList(env, st, news, prevs, None, n, fuel) == UpdateList(env, st, news, prevs, None, m, fuel)
    decreases n
  {
    if n > m {
      UpdateListAppendNowhere(env, st, news, prevs, m, n - 1, fuel);
      UpdateOverFalsy(env, UpdateList(env, st, news, prevs, None, n - 1, fuel), news[n - 1], Absent, None, fuel);
    }
  }

  /**
   * The positions only the old list has: each element entry's `dom` is
   * removed from the display tree, in order; text entries are left alone.
   */
  lemma {:induction false} UpdateListRemoveOnly(env: Env, st: State, news: seq<Value>, prevs: seq<Value>,
                                                parent: Option<NodeId>, m: nat, n: nat, fuel: nat)
    requires env.root.Some? && |news| <= m <= n <= |prevs|
    requires forall i :: m <= i < n ==> !prevs[i].Arr?
    ensures UpdateList(env, st, news, prevs, parent, n, fuel)
         == Unmounted(UpdateList(env, st, news, prevs, parent, m, fuel), prevs[m..n])
    decreases n
  {
    if n > m {
      UpdateListRemoveOnly(env, st, news, prevs, parent, m, n - 1, fuel);
      UpdateListRemoveStep(env, st, news, prevs, parent, m, n, fuel);
    }
  }

  /** One step of `UpdateListRemoveOnly`: position `n - 1` is only in the old list. */
  lemma UpdateListRemoveStep(env: Env, st: State, news: seq<Value>, prevs: seq<Value>,
                             parent: Option<NodeId>, m: nat, n: nat, fuel: nat)
    requires env.root.Some? && |news| <= m < n <= |prevs| && !prevs[n - 1].Arr?
    requires UpdateList(env, st, news, prevs, parent, n - 1, fuel)
          == Unmounted(UpdateList(env, st, news, prevs, parent, m, fuel), prevs[m..n - 1])
    ensures UpdateList(env, st, news, prevs, parent, n, fuel)
         == Unmounted(UpdateList(env, st, news, prevs, parent, m, fuel), prevs[m..n])
  {
    var s := UpdateList(env, st, news, prevs, parent, n - 1, fuel);
    var s0 := UpdateList(env, st, news, prevs, parent, m, fuel);
    calc {
      UpdateList(env, st, news, prevs, parent, n, fuel);
      == { UpdateListStep(env, st, news, prevs, parent, n, fuel); }
      Update(env, s, Absent, prevs[n - 1], parent, 0, fuel);
      == { UpdateToAbsent(env, s, prevs[n - 1], parent, fuel); }
      UnmountOne(s, prevs[n - 1]);
      == { SliceSnoc(prevs, m, n); }
      Unmounted(s0, prevs[m..n]);
    }
  }

  /**
   * When either side is an array and the new list is the longer one, the
   * update walks the common positions and then mounts the extra new entries
   * into `flatPrevious[0].dom.parentElement`, or the given `dom`.
   */
  lemma UpdateArrayGrows(env: Env, st: State, nw: Value, prev: Value, d: Option<NodeId>, k: nat, fuel: nat)
    requires !st.thrown && env.root.Some? && (nw.Arr? || prev.Arr?)
    requires |Flatten(prev)| <= |Flatten(nw)|
    ensures var fn, fp := Flatten(nw), Flatten(prev);
      var parent := ArrayParent(st, fp, d);
      var common := UpdateList(env, st, fn, fp, parent, |fp|, fuel);
      && (parent.Some? ==>
            Update(env, st, nw, prev, d, k, fuel) == MountAll(env, common, Truthy(fn[|fp|..]), parent.value, fuel))
      && (parent.None? ==> Update(env, st, nw, prev, d, k, fuel) == common)
  {
    var fn, fp := Flatten(nw), Flatten(prev);
    var parent := ArrayParent(st, fp, d);
    if parent.Some? {
      UpdateListAppendOnly(env, st, fn, fp, parent.value, |fp|, |fn|, fuel);
      assert fn[|fp|..|fn|] == fn[|fp|..];
    } else {
      UpdateListAppendNowhere(env, st, fn, fp, |fp|, |fn|, fuel);
    }
  }

  /**
   * When either side is an array and the old list is the longer one, the
   * update walks the common positions and then removes the `dom` of every
   * extra old element.
   */
  lemma UpdateArrayShrinks(env: Env, st: State, nw: Value, prev: Value, d: Option<NodeId>, k: nat, fuel: nat)
    requires !st.thrown && env.root.Some? && (nw.Arr? || prev.Arr?)
    requires |Flatten(nw)| <= |Flatten(prev)|
    ensures var fn, fp := Flatten(nw), Flatten(prev);
      var parent := ArrayParent(st, fp, d);
      Update(env, st, nw, prev, d, k, fuel)
        == Unmounted(UpdateList(env, st, fn, fp, parent, |fn|, fuel), fp[|fn|..])
  {
    var fn, fp := Flatten(nw), Flatten(prev);
    UpdateListRemoveOnly(env, st, fn, fp, ArrayParent(st, fp, d), |fn|, |fp|, fuel);
    assert fp[|fn|..|fp|] == fp[|fn|..];
  }

  // ---------------------------------------------------------------------
  // The cases that change nothing, text, and host elements.
  // ---------------------------------------------------------------------

  /**
   * `update` leaves the state as it is when the root container is missing,
   * when the new value is falsy and the previous one is text, when the
   * `typeof`s differ, when two host elements have different numbers of
   * children, and when no record has the new component's name.
   */
  lemma UpdateNoChange(env: Env, st: State, nw: Value, prev: Value, d: Option<NodeId>, k: nat, fuel: nat)
    requires !st.thrown
    ensures env.root.None? ==> Update(env, st, nw, prev, d, k, fuel) == st
    ensures !nw.Arr? && !prev.Arr? && Falsy(nw) && IsText(prev) ==> Update(env, st, nw, prev, d, k, fuel) == st
    ensures !nw.Arr? && !prev.Arr? && !Falsy(nw) && !Falsy(prev) && !SameType(nw, prev)
            ==> Update(env, st, nw, prev, d, k, fuel) == st
    ensures (!prev.Arr? && !Falsy(prev) && nw.El? && prev.El? && nw.tag.Prim?
             && |nw.children| != |prev.children|) ==> Update(env, st, nw, prev, d, k, fuel) == st
    ensures (!prev.Arr? && !Falsy(prev) && nw.El? && !IsText(prev) && nw.tag.Comp? && fuel > 0
             && FindByName(st.components, nw.tag.name).None?) ==> Update(env, st, nw, prev, d, k, fuel) == st
  {
  }

  /**
   * Two strings or two numbers: equal values change nothing; different
   * values rewrite the text of `dom.childNodes[childIndex]` when that child
   * exists, and nothing else; otherwise nothing changes.
   */
  lemma UpdateTextEffect(env: Env, st: State, nw: Value, prev: Value, d: Option<NodeId>, k: nat, fuel: nat)
    requires !st.thrown && env.root.Some?
    requires (nw.Str? && prev.Str?) || (nw.Num? && prev.Num?)
    requires !Falsy(nw) && !Falsy(prev)
    ensures nw == prev ==> Update(env, st, nw, prev, d, k, fuel) == st
    ensures ChildAt(st.nodes, d, k).None? ==> Update(env, st, nw, prev, d, k, fuel) == st
    ensures nw != prev && ChildAt(st.nodes, d, k).Some? ==>
      var x := ChildAt(st.nodes, d, k).value;
      var r := Update(env, st, nw, prev, d, k, fuel);
      && r == st.(nodes := r.nodes)
      && r.nodes.Keys == st.nodes.Keys
      && (forall m :: m in st.nodes && m != x ==> r.nodes[m] == st.nodes[m])
      && (x in st.nodes && st.nodes[x].kind.TextNode? ==> r.nodes[x] == st.nodes[x].(kind := TextNode(ToText(nw))))
  {
  }

  /** After a host element is updated, the new element has the previous element's `dom`. */
  lemma UpdatePrimitiveDom(env: Env, st: State, nw: Value, prev: Value, d: Option<NodeId>, k: nat, fuel: nat)
    requires !st.thrown && env.root.Some?
    requires nw.El? && nw.tag.Prim? && prev.El? && |nw.children| == |prev.children|
    requires !Update(env, st, nw, prev, d, k, fuel).thrown
    ensures var r := Update(env, st, nw, prev, d, k, fuel); DomOf(r, nw.id) == DomOf(r, prev.id)
  {
  }

  /**
   * A host element without children: every new attribute is applied to
   * `previous.dom`, only that node and refs aimed at it change, and the new
   * element takes over `previous.dom`; without a `previous.dom` nothing is
   * applied.
   */
  lemma UpdateLeafEffect(env: Env, st: State, nw: Value, prev: Value, d: Option<NodeId>, k: nat, fuel: nat)
    requires Wf(st) && !st.thrown && env.root.Some?
    requires nw.El? && nw.tag.Prim? && prev.El? && nw.children == [] && prev.children == []
    ensures var r := Update(env, st, nw, prev, d, k, fuel);
      && (prev.id in st.dom ==>
            var n := st.dom[prev.id];
            var s := ApplyProps(st, n, nw.props);
            && TouchesOnly(st, s, n)
            && r == (if s.thrown then s else s.(dom := st.dom[nw.id := n])))
      && (prev.id !in st.dom ==> r == st.(dom := st.dom - {nw.id}))
  {
    if prev.id in st.dom {
      ApplyPropsFrame(st, st.dom[prev.id], nw.props);
    }
  }
}
