/**
 * react/render.tsx as the source runs it: the module-level `previousEl` and
 * `components`, the `dom` field of the element objects and the `current`
 * field of the ref holders are fields of one Renderer object, and the DOM is
 * the Document it drives. Each method is proved to leave exactly the state
 * that the matching function of module Reconcile (or Attributes) computes
 * from the state before the call; `ok` is false when the call throws.
 */
module Renderer {
  import opened Wrappers
  import opened Elements
  import opened Dom
  import opened Session
  import opened Attributes
  import Reconcile

  class Renderer {
    const doc: Document
    const env: Env
    var previousEl: Value
    var components: seq<Record>
    /** `el.dom` of every element object that has one. */
    var dom: map<ElemId, NodeId>
    /** `ref.current` of every ref holder that has been set. */
    var refs: map<RefId, NodeId>

    /** The whole state, with `thrown` telling whether an exception is unwinding. */
    function Snap(thrown: bool): State
      reads this, doc
    {
      State(doc.nodes, doc.next, components, dom, refs, previousEl, thrown)
    }

    /** The module as loaded: nothing rendered yet and no component recorded. */
    constructor (doc: Document, env: Env)
      ensures this.doc == doc && this.env == env
      ensures previousEl == Absent && components == [] && dom == map[] && refs == map[]
    {
      this.doc := doc;
      this.env := env;
      previousEl := Absent;
      components := [];
      dom := map[];
      refs := map[];
    }

    /** `setProps(domEl, el, prop)` for the attribute `name` whose value is `val`. */
    method SetProps(n: NodeId, name: string, val: PropVal) returns (ok: bool)
      modifies this, doc
      ensures Snap(!ok) == SetProp(old(Snap(false)), n, name, val)
    {
      ok := true;
      if name == "style" {
        match val
        case PStyle(es) =>
          var i := 0;
          while i < |es|
            invariant 0 <= i <= |es|
            invariant Snap(false) == old(Snap(false)).(nodes := WithStyles(old(doc.nodes), n, es[..i]))
          {
            assert es[..i + 1][..i] == es[..i];
            doc.SetStyle(n, es[i].0, es[i].1);
            i := i + 1;
          }
          assert es[..|es|] == es;
        case PNull =>
          ok := false;
        case _ =>
      } else if name == "ref" {
        match val
        case PRef(r) => refs := refs[r := n];
        case PStr(_) => ok := false;
        case PNum(_) => ok := false;
        case PNull => ok := false;
        case _ =>
      } else if name == "className" {
        doc.SetProperty(n, "className", val);
      } else if name == "onChange" {
        match val
        case PHandler(h) => doc.AddEventListener(n, h);
        case PStr(_) => ok := false;
        case PNum(_) => ok := false;
        case _ =>
      } else {
        doc.SetProperty(n, Lower(name), val);
      }
    }

    /** `Object.keys(props).forEach(prop => setProps(n, el, prop))`. */
    method ApplyAllProps(n: NodeId, ps: Props) returns (ok: bool)
      modifies this, doc
      ensures Snap(!ok) == ApplyProps(old(Snap(false)), n, ps)
    {
      ok := true;
      var i := 0;
      while i < |ps|
        invariant 0 <= i <= |ps|
        invariant Snap(false) == ApplyProps(old(Snap(false)), n, ps[..i])
      {
        assert ps[..i + 1][..i] == ps[..i];
        ok := SetProps(n, ps[i].0, ps[i].1);
        if !ok {
          Reconcile.ApplyPropsPrefixThrown(old(Snap(false)), n, ps, i + 1);
          return;
        }
        i := i + 1;
      }
      assert ps[..|ps|] == ps;
    }

    /** `mount({ el: v, container: c, mode })`. */
    method Mount(v: Value, c: NodeId, mode: Mode, fuel: nat) returns (ok: bool)
      modifies this, doc
      ensures Snap(!ok) == Reconcile.Mount(env, old(Snap(false)), v, c, mode, fuel)
      decreases fuel, Size(v), 1, 0
    {
      ok := true;
      match v
      case Absent =>
        ok := false;
      case Str(_) =>
        var t := doc.CreateTextNode(ToText(v));
        doc.AppendChild(c, t);
      case Num(_) =>
        var t := doc.CreateTextNode(ToText(v));
        doc.AppendChild(c, t);
      case Arr(items) =>
        ok := MountEach(items, c, fuel);
      case El(id, tag, props, children) =>
        match tag
        case Comp(fid, name) =>
          if fuel == 0 {
            ok := false;
            return;
          }
          var component := env.expand(fid, props, children);
          components := components + [Record(name, component)];
          ok := Mount(component, c, Append, fuel - 1);
        case Prim(_) =>
          ok := MountHost(v, c, mode, fuel);
    }

    /** The host-element case of `mount`: create, apply attributes, mount the children, attach. */
    method MountHost(v: Value, c: NodeId, mode: Mode, fuel: nat) returns (ok: bool)
      requires v.El? && v.tag.Prim?
      modifies this, doc
      ensures Snap(!ok) == Reconcile.Mount(env, old(Snap(false)), v, c, mode, fuel)
      decreases fuel, Size(v), 0, 0
    {
      var n := doc.CreateElement(v.tag.name);
      ok := ApplyAllProps(n, v.props);
      if !ok {
        Reconcile.MountAllThrown(env, Snap(true), FlattenAll(v.children), n, fuel);
        return;
      }
      if |v.children| > 0 {
        ok := MountEach(FlattenAll(v.children), n, fuel);
        if !ok {
          return;
        }
      }
      if mode == Replace {
        doc.ReplaceWith(c, n);
      } else {
        doc.AppendChild(c, n);
      }
      dom := dom[v.id := n];
    }

    /** `vs.forEach(child => mount({ el: child, container: c }))`. */
    method MountEach(vs: seq<Value>, c: NodeId, fuel: nat) returns (ok: bool)
      modifies this, doc
      ensures Snap(!ok) == Reconcile.MountAll(env, old(Snap(false)), vs, c, fuel)
      decreases fuel, SizeAll(vs), 2, |vs|
    {
      ok := true;
      var i := 0;
      while i < |vs|
        invariant 0 <= i <= |vs|
        invariant Snap(false) == Reconcile.MountAll(env, old(Snap(false)), vs[..i], c, fuel)
      {
        assert vs[..i + 1][..i] == vs[..i];
        SizeAt(vs, i);
        ok := Mount(vs[i], c, Append, fuel);
        if !ok {
          Reconcile.MountAllPrefixThrown(env, old(Snap(false)), vs, c, fuel, i + 1);
          return;
        }
        i := i + 1;
      }
      assert vs[..|vs|] == vs;
    }

    /** `update({ newEl: nw, previous: prev, dom: d, childIndex: k })`. */
    method Update(nw: Value, prev: Value, d: Option<NodeId>, k: nat, fuel: nat) returns (ok: bool)
      modifies this, doc
      ensures Snap(!ok) == Reconcile.Update(env, old(Snap(false)), nw, prev, d, k, fuel)
      decreases fuel, Size(nw) + Size(prev), 1, 0
    {
      ok := true;
      if env.root.None? {
        return;
      }
      if nw.Arr? || prev.Arr? {
        var flatNew := Flatten(nw);
        var flatPrevious := Flatten(prev);
        var bigger := if |flatNew| > |flatPrevious| then |flatNew| else |flatPrevious|;
        var domEl := d;
        if |flatPrevious| > 0 && flatPrevious[0].El? && flatPrevious[0].id in dom
           && doc.ParentOf(dom[flatPrevious[0].id]).Some? {
          domEl := doc.ParentOf(dom[flatPrevious[0].id]);
        }
        ok := UpdatePositional(flatNew, flatPrevious, domEl, bigger, fuel);
        return;
      }
      ok := UpdateValue(nw, prev, d, k, fuel);
    }

    /** `update` when neither side is an array. */
    method UpdateValue(nw: Value, prev: Value, d: Option<NodeId>, k: nat, fuel: nat) returns (ok: bool)
      requires env.root.Some? && !nw.Arr? && !prev.Arr?
      modifies this, doc
      ensures Snap(!ok) == Reconcile.Update(env, old(Snap(false)), nw, prev, d, k, fuel)
      decreases fuel, Size(nw) + Size(prev), 0, 1
    {
      ok := true;
      if Falsy(nw) {
        if IsText(prev) {
          return;
        }
        if prev.El? && prev.id in dom {
          doc.Remove(dom[prev.id]);
        }
        return;
      }
      if Falsy(prev) {
        if d.None? {
          return;
        }
        ok := Mount(nw, d.value, Append, fuel);
        return;
      }
      if !SameType(nw, prev) {
        return;      // "Type mismatch"
      }
      if IsText(nw) {
        if nw != prev {
          var child := doc.ChildNode(d, k);
          if child.None? {
            return;
          }
          doc.SetNodeValue(child.value, ToText(nw));
        }
        return;
      }
      match nw.tag
      case Comp(fid, name) =>
        if fuel == 0 {
          ok := false;
          return;
        }
        var current := env.expand(fid, nw.props, nw.children);
        var component := FindByName(components, name);
        if component.None? {
          return;    // "Component not found"
        }
        ok := Update(current, component.value.component, None, 0, fuel - 1);
      case Prim(_) =>
        ok := UpdateHost(nw, prev, d, k, fuel);
    }

    /** The host-element case of `update`: same tag kind, both truthy, neither an array. */
    method UpdateHost(nw: Value, prev: Value, d: Option<NodeId>, k: nat, fuel: nat) returns (ok: bool)
      requires env.root.Some? && !nw.Arr? && !prev.Arr? && !Falsy(nw) && !Falsy(prev)
      requires SameType(nw, prev) && nw.El? && nw.tag.Prim?
      modifies this, doc
      ensures Snap(!ok) == Reconcile.Update(env, old(Snap(false)), nw, prev, d, k, fuel)
      decreases fuel, Size(nw) + Size(prev), 0, 0
    {
      ok := true;
      if |nw.children| != |prev.children| {
        return;    // "Children length mismatch"
      }
      // setProps never changes `dom`, so one test of `previous.dom` stands for the test in every iteration
      if prev.id in dom {
        ok := ApplyAllProps(dom[prev.id], nw.props);
        if !ok {
          Reconcile.UpdateChildrenThrown(env, Snap(true), nw.children, prev.children, prev.id, |nw.children|, fuel);
          return;
        }
      }
      ok := UpdateChildrenAt(nw.children, prev.children, prev.id, |nw.children|, fuel);
      if !ok {
        return;
      }
      dom := if prev.id in dom then dom[nw.id := dom[prev.id]] else dom - {nw.id};
    }

    /** `for (let i = 0; i < n; i++) update({ newEl: news[i], previous: prevs[i], dom: parent })`. */
    method UpdatePositional(news: seq<Value>, prevs: seq<Value>, parent: Option<NodeId>, n: nat, fuel: nat)
      returns (ok: bool)
      modifies this, doc
      ensures Snap(!ok) == Reconcile.UpdateList(env, old(Snap(false)), news, prevs, parent, n, fuel)
      decreases fuel, SizeAll(news) + SizeAll(prevs), 2, n
    {
      ok := true;
      var i := 0;
      while i < n
        invariant 0 <= i <= n
        invariant Snap(false) == Reconcile.UpdateList(env, old(Snap(false)), news, prevs, parent, i, fuel)
      {
        SizeAt(news, i);
        SizeAt(prevs, i);
        ghost var before := Snap(false);
        ok := Update(At(news, i), At(prevs, i), parent, 0, fuel);
        assert Snap(!ok) == Reconcile.Update(env, before, At(news, i), At(prevs, i), parent, 0, fuel);
        Reconcile.UpdateListStep(env, old(Snap(false)), news, prevs, parent, i + 1, fuel);
        if !ok {
          Reconcile.UpdateListPrefixThrown(env, old(Snap(false)), news, prevs, parent, fuel, i + 1, n);
          return;
        }
        i := i + 1;
      }
    }

    /**
     * The children loop of `update`: child `i` against previous child `i`,
     * with `previous.dom` as parent and `i` as child index.
     */
    method UpdateChildrenAt(news: seq<Value>, prevs: seq<Value>, pid: ElemId, n: nat, fuel: nat)
      returns (ok: bool)
      modifies this, doc
      ensures Snap(!ok) == Reconcile.UpdateChildren(env, old(Snap(false)), news, prevs, pid, n, fuel)
      decreases fuel, SizeAll(news) + SizeAll(prevs), 2, n
    {
      ok := true;
      var i := 0;
      while i < n
        invariant 0 <= i <= n
        invariant Snap(false) == Reconcile.UpdateChildren(env, old(Snap(false)), news, prevs, pid, i, fuel)
      {
        SizeAt(news, i);
        SizeAt(prevs, i);
        var parent := if pid in dom then Some(dom[pid]) else None;
        ghost var before := Snap(false);
        ok := Update(At(news, i), At(prevs, i), parent, i, fuel);
        assert Snap(!ok) == Reconcile.Update(env, before, At(news, i), At(prevs, i), DomOf(before, pid), i, fuel);
        Reconcile.UpdateChildrenStep(env, old(Snap(false)), news, prevs, pid, i + 1, fuel);
        if !ok {
          Reconcile.UpdateChildrenPrefixThrown(env, old(Snap(false)), news, prevs, pid, fuel, i + 1, n);
          return;
        }
        i := i + 1;
      }
    }

    /** `render(v, c)`. */
    method Render(v: Value, c: NodeId, fuel: nat) returns (ok: bool)
      modifies this, doc
      ensures Snap(!ok) == Reconcile.Render(env, old(Snap(false)), v, c, fuel)
      decreases Size(v), 0, 0
    {
      ok := true;
      if v.Arr? {
        var items := v.items;
        var i := 0;
        while i < |items|
          invariant 0 <= i <= |items|
          invariant Snap(false) == Reconcile.RenderAll(env, old(Snap(false)), items[..i], c, fuel)
        {
          assert items[..i + 1][..i] == items[..i];
          SizeAt(items, i);
          ok := Render(items[i], c, fuel);
          if !ok {
            Reconcile.RenderAllPrefixThrown(env, old(Snap(false)), items, c, fuel, i + 1);
            return;
          }
          i := i + 1;
        }
        assert items[..|items|] == items;
        return;
      }
      if Falsy(previousEl) {
        components := [];      // clearArray(components)
        ok := Mount(v, c, Append, fuel);
      } else {
        ok := Update(v, previousEl, None, 0, fuel);
      }
      if ok {
        previousEl := v;
      }
    }
  }
}
