/**
 * `mount`, `update` and `render` of react/render.tsx as functions from the
 * state before a call to the state after it. These are the specifications
 * the methods of class Renderer.Renderer are proved against, and the subject
 * of the lemmas in mount_facts.dfy and update_facts.dfy.
 *
 * Composite expansion is bounded by `fuel`: a component always returns a new
 * element tree, so nothing bounds the nesting of expansions; when the fuel
 * runs out the model throws, as the call stack would overflow.
 */
module Reconcile {
  import opened Wrappers
  import opened Elements
  import opened Dom
  import opened Session
  import opened Attributes

  function Max(a: nat, b: nat): nat
  {
    if a > b then a else b
  }

  /** `container.replaceWith(n)` in replace mode, `container.appendChild(n)` otherwise. */
  function Attach(st: State, c: NodeId, n: NodeId, mode: Mode): State
  {
    if mode == Replace then st.(nodes := Replaced(st.nodes, c, n)) else st.(nodes := Appended(st.nodes, c, n))
  }

  /** A string or number: a fresh text node holding its text, appended to `c`. */
  function MountText(st: State, v: Value, c: NodeId): State
    requires IsText(v)
  {
    var n := st.next;
    st.(nodes := Appended(st.nodes[n := NewNode(TextNode(ToText(v)))], c, n), next := n + 1)
  }

  /**
   * `mount({ el: v, container: c, mode })`.
   * An array mounts each member into `c` (in append mode); a string or number
   * appends a text node; a component records `{ name, component }` and mounts
   * what it returned into `c` (in append mode); a host element creates its
   * node, applies its attributes, mounts its flattened children into it,
   * attaches it to `c` by `mode` and stores it as the element's `dom`.
   * `null` and `undefined` throw (reading `tag` of them).
   */
  function Mount(env: Env, st: State, v: Value, c: NodeId, mode: Mode, fuel: nat): State
    decreases fuel, Size(v), 1, 0
  {
    if st.thrown then st
    else
      match v
      case Absent => st.(thrown := true)
      case Str(_) => MountText(st, v, c)
      case Num(_) => MountText(st, v, c)
      case Arr(items) => MountAll(env, st, items, c, fuel)
      case El(id, tag, props, children) =>
        match tag
        case Comp(fid, name) =>
          if fuel == 0 then st.(thrown := true)
          else
            var component := env.expand(fid, props, children);
            Mount(env, st.(components := st.components + [Record(name, component)]), component, c, Append, fuel - 1)
        case Prim(t) =>
          var n := st.next;
          var s3 := Prepared(env, st, v, fuel);
          if s3.thrown then s3 else Attach(s3, c, n, mode).(dom := s3.dom[id := n])
  }

  /**
   * A host element before it is attached: its node created under the next
   * free id, its attributes applied and its flattened children mounted into it.
   */
  function Prepared(env: Env, st: State, v: Value, fuel: nat): State
    requires v.El? && v.tag.Prim?
    decreases fuel, Size(v), 0, 0
  {
    var n := st.next;
    var s1 := st.(nodes := st.nodes[n := NewNode(ElementNode(v.tag.name))], next := n + 1);
    var s2 := ApplyProps(s1, n, v.props);
    if |v.children| > 0 then MountAll(env, s2, FlattenAll(v.children), n, fuel) else s2
  }

  /** `vs.forEach(child => mount({ el: child, container: c }))`. */
  function MountAll(env: Env, st: State, vs: seq<Value>, c: NodeId, fuel: nat): State
    decreases fuel, SizeAll(vs), 2, |vs|
  {
    if vs == [] then st
    else Mount(env, MountAll(env, st, vs[..|vs| - 1], c, fuel), vs[|vs| - 1], c, Append, fuel)
  }

  /** `flatPrevious[0]?.dom?.parentElement || dom`. */
  function ArrayParent(st: State, fp: seq<Value>, d: Option<NodeId>): Option<NodeId>
  {
    if |fp| > 0 && fp[0].El? && fp[0].id in st.dom && ParentElement(st.nodes, st.dom[fp[0].id]).Some? then
      ParentElement(st.nodes, st.dom[fp[0].id])
    else d
  }

  /**
   * `update({ newEl: nw, previous: prev, dom: d, childIndex: k })`, the rules
   * tried in the source's order: the root container is missing; either side
   * is an array; the new value is falsy; the previous value is falsy; the
   * `typeof`s differ; both are text; the new element is a component; the
   * children counts differ; otherwise patch the host element in place.
   */
  function Update(env: Env, st: State, nw: Value, prev: Value, d: Option<NodeId>, k: nat, fuel: nat): State
    decreases fuel, Size(nw) + Size(prev), 1, 0
  {
    if st.thrown || env.root.None? then st
    else if nw.Arr? || prev.Arr? then
      var fn := Flatten(nw);
      var fp := Flatten(prev);
      UpdateList(env, st, fn, fp, ArrayParent(st, fp, d), Max(|fn|, |fp|), fuel)
    else if Falsy(nw) then
      if IsText(prev) then st
      else if prev.El? && prev.id in st.dom then st.(nodes := Detached(st.nodes, st.dom[prev.id]))
      else st
    else if Falsy(prev) then
      if d.None? then st else Mount(env, st, nw, d.value, Append, fuel)
    else if !SameType(nw, prev) then st
    else if IsText(nw) then
      if nw == prev then st
      else
        match ChildAt(st.nodes, d, k)
        case None => st
        case Some(child) => st.(nodes := WithNodeValue(st.nodes, child, ToText(nw)))
    else
      match nw.tag
      case Comp(fid, name) =>
        if fuel == 0 then st.(thrown := true)
        else
          var current := env.expand(fid, nw.props, nw.children);
          (match FindByName(st.components, name)
           case None => st
           case Some(rec) => Update(env, st, current, rec.component, None, 0, fuel - 1))
      case Prim(_) =>
        if |nw.children| != |prev.children| then st
        else
          var s1 := if prev.id in st.dom then ApplyProps(st, st.dom[prev.id], nw.props) else st;
          var s2 := UpdateChildren(env, s1, nw.children, prev.children, prev.id, |nw.children|, fuel);
          if s2.thrown then s2
          else s2.(dom := if prev.id in s2.dom then s2.dom[nw.id := s2.dom[prev.id]] else s2.dom - {nw.id})
  }

  /** `for (let i = 0; i < n; i++) update({ newEl: news[i], previous: prevs[i], dom: parent })`. */
  function UpdateList(env: Env, st: State, news: seq<Value>, prevs: seq<Value>, parent: Option<NodeId>,
                      n: nat, fuel: nat): State
    decreases fuel, SizeAll(news) + SizeAll(prevs), 2, n
  {
    if n == 0 then st
    else
      var s := UpdateList(env, st, news, prevs, parent, n - 1, fuel);
      SizeAt(news, n - 1);
      SizeAt(prevs, n - 1);
      Update(env, s, At(news, n - 1), At(prevs, n - 1), parent, 0, fuel)
  }

  /**
   * The children loop of the last rule: child `i` is reconciled with
   * `previous.dom` (read afresh at each step) as parent and `i` as child index.
   */
  function UpdateChildren(env: Env, st: State, news: seq<Value>, prevs: seq<Value>, pid: ElemId,
                          n: nat, fuel: nat): State
    decreases fuel, SizeAll(news) + SizeAll(prevs), 2, n
  {
    if n == 0 then st
    else
      var s := UpdateChildren(env, st, news, prevs, pid, n - 1, fuel);
      SizeAt(news, n - 1);
      SizeAt(prevs, n - 1);
      Update(env, s, At(news, n - 1), At(prevs, n - 1), DomOf(s, pid), n - 1, fuel)
  }

  /**
   * `render(v, c)`: an array renders each member in turn; otherwise, with no
   * previous tree, clear `components` and mount, else update against the
   * previous tree; afterwards `v` is the previous tree. An exception leaves
   * `previousEl` as it was.
   */
  function Render(env: Env, st: State, v: Value, c: NodeId, fuel: nat): State
    decreases Size(v), 0, 0
  {
    if st.thrown then st
    else if v.Arr? then RenderAll(env, st, v.items, c, fuel)
    else
      var s1 := if Falsy(st.previousEl) then Mount(env, st.(components := []), v, c, Append, fuel)
                else Update(env, st, v, st.previousEl, None, 0, fuel);
      if s1.thrown then s1 else s1.(previousEl := v)
  }

  function RenderAll(env: Env, st: State, vs: seq<Value>, c: NodeId, fuel: nat): State
    decreases SizeAll(vs), 1, |vs|
  {
    if vs == [] then st
    else Render(env, RenderAll(env, st, vs[..|vs| - 1], c, fuel), vs[|vs| - 1], c, fuel)
  }

  // ---------------------------------------------------------------------
  // An exception ends a loop: the steps after it change nothing.
  // ---------------------------------------------------------------------

  /** One more step of the array walk. */
  lemma UpdateListStep(env: Env, st: State, news: seq<Value>, prevs: seq<Value>, parent: Option<NodeId>, n: nat,
                       fuel: nat)
    requires n > 0
    ensures UpdateList(env, st, news, prevs, parent, n, fuel)
         == Update(env, UpdateList(env, st, news, prevs, parent, n - 1, fuel), At(news, n - 1), At(prevs, n - 1),
                   parent, 0, fuel)
  {
  }

  /** One more step of the children loop. */
  lemma UpdateChildrenStep(env: Env, st: State, news: seq<Value>, prevs: seq<Value>, pid: ElemId, n: nat, fuel: nat)
    requires n > 0
    ensures var s := UpdateChildren(env, st, news, prevs, pid, n - 1, fuel);
      UpdateChildren(env, st, news, prevs, pid, n, fuel)
         == Update(env, s, At(news, n - 1), At(prevs, n - 1), DomOf(s, pid), n - 1, fuel)
  {
  }

  lemma {:induction false} ApplyPropsPrefixThrown(st: State, n: NodeId, ps: Props, j: nat)
    requires j <= |ps| && ApplyProps(st, n, ps[..j]).thrown
    ensures ApplyProps(st, n, ps) == ApplyProps(st, n, ps[..j])
    decreases |ps|
  {
    if j < |ps| {
      var front := ps[..|ps| - 1];
      assert front[..j] == ps[..j];
      ApplyPropsPrefixThrown(st, n, front, j);
    } else {
      assert ps[..j] == ps;
    }
  }

  lemma {:induction false} MountAllPrefixThrown(env: Env, st: State, vs: seq<Value>, c: NodeId, fuel: nat, j: nat)
    requires j <= |vs| && MountAll(env, st, vs[..j], c, fuel).thrown
    ensures MountAll(env, st, vs, c, fuel) == MountAll(env, st, vs[..j], c, fuel)
    decreases |vs|
  {
    if j < |vs| {
      var front := vs[..|vs| - 1];
      assert front[..j] == vs[..j];
      MountAllPrefixThrown(env, st, front, c, fuel, j);
    } else {
      assert vs[..j] == vs;
    }
  }

  lemma {:induction false} UpdateListPrefixThrown(env: Env, st: State, news: seq<Value>, prevs: seq<Value>,
                                                  parent: Option<NodeId>, fuel: nat, j: nat, n: nat)
    requires j <= n && UpdateList(env, st, news, prevs, parent, j, fuel).thrown
    ensures UpdateList(env, st, news, prevs, parent, n, fuel) == UpdateList(env, st, news, prevs, parent, j, fuel)
    decreases n
  {
    if j < n {
      UpdateListPrefixThrown(env, st, news, prevs, parent, fuel, j, n - 1);
    }
  }

  lemma {:induction false} UpdateChildrenPrefixThrown(env: Env, st: State, news: seq<Value>, prevs: seq<Value>,
                                                      pid: ElemId, fuel: nat, j: nat, n: nat)
    requires j <= n && UpdateChildren(env, st, news, prevs, pid, j, fuel).thrown
    ensures UpdateChildren(env, st, news, prevs, pid, n, fuel) == UpdateChildren(env, st, news, prevs, pid, j, fuel)
    decreases n
  {
    if j < n {
      UpdateChildrenPrefixThrown(env, st, news, prevs, pid, fuel, j, n - 1);
    }
  }

  lemma {:induction false} RenderAllPrefixThrown(env: Env, st: State, vs: seq<Value>, c: NodeId, fuel: nat, j: nat)
    requires j <= |vs| && RenderAll(env, st, vs[..j], c, fuel).thrown
    ensures RenderAll(env, st, vs, c, fuel) == RenderAll(env, st, vs[..j], c, fuel)
    decreases |vs|
  {
    if j < |vs| {
      var front := vs[..|vs| - 1];
      assert front[..j] == vs[..j];
      RenderAllPrefixThrown(env, st, front, c, fuel, j);
    } else {
      assert vs[..j] == vs;
    }
  }

  /** Once an exception is unwinding, mounting a list of children does nothing. */
  lemma {:induction false} MountAllThrown(env: Env, st: State, vs: seq<Value>, c: NodeId, fuel: nat)
    requires st.thrown
    ensures MountAll(env, st, vs, c, fuel) == st
    decreases |vs|
  {
    if vs != [] {
      MountAllThrown(env, st, vs[..|vs| - 1], c, fuel);
    }
  }

  /** Once an exception is unwinding, the children loop of `update` does nothing. */
  lemma {:induction false} UpdateChildrenThrown(env: Env, st: State, news: seq<Value>, prevs: seq<Value>,
                                                pid: ElemId, n: nat, fuel: nat)
    requires st.thrown
    ensures UpdateChildren(env, st, news, prevs, pid, n, fuel) == st
    decreases n
  {
    if n > 0 {
      UpdateChildrenThrown(env, st, news, prevs, pid, n - 1, fuel);
    }
  }
}
