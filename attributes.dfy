/**
 * `setProps` of react/render.tsx: the fixed table that applies one attribute
 * of an element to a display node, and the loop over all attributes that
 * `mount` and `update` run.
 */
module Attributes {
  import opened Wrappers
  import opened Elements
  import opened Dom
  import opened Session

  /** ASCII `toLowerCase` of one character. */
  function LowerChar(c: char): (r: char)
    ensures 'A' <= c <= 'Z' ==> r as int == c as int + 32
    ensures !('A' <= c <= 'Z') ==> r == c
  {
    if 'A' <= c <= 'Z' then (c as int + 32) as char else c
  }

  /** `s.toLowerCase()`, for the ASCII letters. */
  function Lower(s: string): (r: string)
    ensures |r| == |s|
    ensures forall i :: 0 <= i < |s| ==> r[i] == LowerChar(s[i])
  {
    seq(|s|, i requires 0 <= i < |s| => LowerChar(s[i]))
  }

  /** Lower-casing leaves no upper-case letter and is idempotent. */
  lemma LowerIdempotent(s: string)
    ensures forall i :: 0 <= i < |Lower(s)| ==> !('A' <= Lower(s)[i] <= 'Z')
    ensures Lower(Lower(s)) == Lower(s)
  {
  }

  /** The style properties a style object lists. */
  function StyleKeys(es: seq<(string, string)>): (ks: set<string>)
    ensures forall i :: 0 <= i < |es| ==> es[i].0 in ks
    ensures forall k :: k in ks ==> exists i :: 0 <= i < |es| && es[i].0 == k
  {
    set i | 0 <= i < |es| :: es[i].0
  }

  /** The value the last entry for `k` gives. */
  function LastValue(es: seq<(string, string)>, k: string): string
    requires k in StyleKeys(es)
  {
    if es[|es| - 1].0 == k then es[|es| - 1].1
    else
      assert k in StyleKeys(es[..|es| - 1]) by {
        var i :| 0 <= i < |es| && es[i].0 == k;
        assert es[..|es| - 1][i].0 == k;
      }
      LastValue(es[..|es| - 1], k)
  }

  /** The style object as a map: each listed key with its last value. */
  function StyleMap(es: seq<(string, string)>): (m: map<string, string>)
    ensures m.Keys == StyleKeys(es)
  {
    map k | k in StyleKeys(es) :: LastValue(es, k)
  }

  /** `Object.keys(style).forEach(k => domEl.style[k] = style[k])`. */
  function WithStyles(nodes: Nodes, n: NodeId, es: seq<(string, string)>): (r: Nodes)
    ensures r.Keys == nodes.Keys
  {
    if es == [] then nodes
    else
      var e := es[|es| - 1];
      WithStyle(WithStyles(nodes, n, es[..|es| - 1]), n, e.0, e.1)
  }

  /** The keys of a style object are those before its last entry, plus that entry's. */
  lemma StyleKeysSnoc(es: seq<(string, string)>)
    requires es != []
    ensures StyleKeys(es) == StyleKeys(es[..|es| - 1]) + {es[|es| - 1].0}
  {
    var front := es[..|es| - 1];
    forall k | k in StyleKeys(es) ensures k in StyleKeys(front) + {es[|es| - 1].0} {
      var i :| 0 <= i < |es| && es[i].0 == k;
      if i < |es| - 1 { assert front[i].0 == k; }
    }
    forall k | k in StyleKeys(front) ensures k in StyleKeys(es) {
      var i :| 0 <= i < |front| && front[i].0 == k;
      assert es[i].0 == k;
    }
  }

  /** A style object is the style object without its last entry, then that entry. */
  lemma StyleMapSnoc(es: seq<(string, string)>)
    requires es != []
    ensures StyleMap(es) == StyleMap(es[..|es| - 1])[es[|es| - 1].0 := es[|es| - 1].1]
  {
    StyleKeysSnoc(es);
  }

  /**
   * Writing a style object sets exactly its listed properties, each to its
   * value, and leaves every other style property, every other field of the
   * node and every other node as it was.
   */
  lemma {:induction false} WithStylesEffect(nodes: Nodes, n: NodeId, es: seq<(string, string)>)
    requires n in nodes
    ensures WithStyles(nodes, n, es)[n] == nodes[n].(style := nodes[n].style + StyleMap(es))
    ensures forall m :: m in nodes && m != n ==> WithStyles(nodes, n, es)[m] == nodes[m]
    decreases |es|
  {
    if es == [] {
      assert StyleMap(es) == map[];
      assert nodes[n].style + map[] == nodes[n].style;
    } else {
      var front := es[..|es| - 1];
      var e := es[|es| - 1];
      WithStylesEffect(nodes, n, front);
      StyleMapSnoc(es);
      assert (nodes[n].style + StyleMap(front))[e.0 := e.1] == nodes[n].style + StyleMap(es);
    }
  }

  /** Writing a style object is one update of node `n`'s style. */
  lemma WithStylesWrite(nodes: Nodes, n: NodeId, es: seq<(string, string)>)
    requires n in nodes
    ensures WithStyles(nodes, n, es) == nodes[n := nodes[n].(style := nodes[n].style + StyleMap(es))]
  {
    WithStylesEffect(nodes, n, es);
  }

  /**
   * `setProps(domEl, el, prop)` for attribute `name` with value `val`:
   * "style" writes each listed style property, "ref" points the holder's
   * `current` at the node, "className" sets the class, "onChange" registers
   * an input listener and any other name sets the lower-cased property.
   * Reading keys of null, setting `current` on null or on a primitive, and
   * passing a string or number as a listener throw.
   */
  function SetProp(st: State, n: NodeId, name: string, val: PropVal): State
  {
    if st.thrown then st
    else if name == "style" then
      match val
      case PStyle(es) => st.(nodes := WithStyles(st.nodes, n, es))
      case PNull => st.(thrown := true)
      case _ => st
    else if name == "ref" then
      match val
      case PRef(r) => st.(refs := st.refs[r := n])
      case PStr(_) => st.(thrown := true)
      case PNum(_) => st.(thrown := true)
      case PNull => st.(thrown := true)
      case _ => st
    else if name == "className" then
      st.(nodes := WithProperty(st.nodes, n, "className", val))
    else if name == "onChange" then
      match val
      case PHandler(h) => st.(nodes := WithListener(st.nodes, n, h))
      case PStr(_) => st.(thrown := true)
      case PNum(_) => st.(thrown := true)
      case _ => st
    else
      st.(nodes := WithProperty(st.nodes, n, Lower(name), val))
  }

  /** `Object.keys(el.props).forEach(prop => setProps(domEl, el, prop))`. */
  function ApplyProps(st: State, n: NodeId, ps: Props): State
  {
    if ps == [] then st
    else
      var p := ps[|ps| - 1];
      SetProp(ApplyProps(st, n, ps[..|ps| - 1]), n, p.0, p.1)
  }

  /** True when `st'` differs from `st` at most in node `n`'s properties, style and listeners, and in refs now pointing at `n`. */
  ghost predicate TouchesOnly(st: State, st': State, n: NodeId)
  {
    && st'.next == st.next && st'.components == st.components && st'.dom == st.dom
    && st'.previousEl == st.previousEl
    && st'.nodes.Keys == st.nodes.Keys
    && (forall m :: m in st.nodes && m != n ==> st'.nodes[m] == st.nodes[m])
    && (n in st.nodes ==>
          && st'.nodes[n].kind == st.nodes[n].kind
          && st'.nodes[n].parent == st.nodes[n].parent
          && st'.nodes[n].children == st.nodes[n].children)
    && st'.refs.Keys >= st.refs.Keys
    && (forall r :: r in st'.refs ==> st'.refs[r] == n || (r in st.refs && st'.refs[r] == st.refs[r]))
  }

  /** `setProps` throws for this attribute: reading keys of null, setting `current` on null or a primitive, a primitive listener. */
  predicate Rejects(name: string, val: PropVal)
  {
    || (name == "style" && val.PNull?)
    || (name == "ref" && (val.PStr? || val.PNum? || val.PNull?))
    || (name == "onChange" && (val.PStr? || val.PNum?))
  }

  /**
   * The attribute table, row by row: the whole state one call of `setProps`
   * leaves. Each row changes one field of node `n` (or, for "ref", one ref
   * holder) and nothing else; the values the table ignores change nothing.
   */
  lemma SetPropTable(st: State, n: NodeId, name: string, val: PropVal)
    requires !st.thrown && n in st.nodes
    ensures SetProp(st, n, name, val).thrown <==> Rejects(name, val)
    ensures Rejects(name, val) ==> SetProp(st, n, name, val) == st.(thrown := true)
    ensures name == "style" && val.PStyle? ==>
      SetProp(st, n, name, val)
        == st.(nodes := st.nodes[n := st.nodes[n].(style := st.nodes[n].style + StyleMap(val.entries))])
    ensures name == "ref" && val.PRef? ==>
      SetProp(st, n, name, val) == st.(refs := st.refs[val.r := n])
    ensures name == "className" ==>
      SetProp(st, n, name, val)
        == st.(nodes := st.nodes[n := st.nodes[n].(props := st.nodes[n].props["className" := val])])
    ensures name == "onChange" && val.PHandler? ==>
      var ls := st.nodes[n].listeners;
      SetProp(st, n, name, val)
        == st.(nodes := st.nodes[n := st.nodes[n].(listeners := if val.h in ls then ls else ls + [val.h])])
    ensures name !in {"style", "ref", "className", "onChange"} ==>
      SetProp(st, n, name, val)
        == st.(nodes := st.nodes[n := st.nodes[n].(props := st.nodes[n].props[Lower(name) := val])])
    ensures name == "style" && !val.PStyle? && !val.PNull? ==> SetProp(st, n, name, val) == st
    ensures name == "ref" && (val.PStyle? || val.PHandler?) ==> SetProp(st, n, name, val) == st
    ensures name == "onChange" && (val.PStyle? || val.PRef? || val.PNull?) ==> SetProp(st, n, name, val) == st
  {
    if name == "style" && val.PStyle? {
      var node := st.nodes[n];
      WithStylesEffect(st.nodes, n, val.entries);
      assert WithStyles(st.nodes, n, val.entries) == st.nodes[n := node.(style := node.style + StyleMap(val.entries))];
    } else if name == "onChange" && val.PHandler? {
      assert st.nodes[n := st.nodes[n].(listeners := st.nodes[n].listeners)] == st.nodes;
    }
  }

  /** One call of `setProps` changes node `n` and refs aimed at `n`, and nothing else. */
  lemma SetPropFrame(st: State, n: NodeId, name: string, val: PropVal)
    requires !st.thrown && n in st.nodes
    ensures TouchesOnly(st, SetProp(st, n, name, val), n)
  {
    var node := st.nodes[n];
    SetPropTable(st, n, name, val);
    if name == "style" {
      if val.PStyle? {
        NodeWriteTouchesOnly(st, n, node.(style := node.style + StyleMap(val.entries)));
      }
    } else if name == "ref" {
    } else if name == "className" {
      NodeWriteTouchesOnly(st, n, node.(props := node.props["className" := val]));
    } else if name == "onChange" {
      if val.PHandler? {
        var ls := node.listeners;
        NodeWriteTouchesOnly(st, n, node.(listeners := if val.h in ls then ls else ls + [val.h]));
      }
    } else {
      NodeWriteTouchesOnly(st, n, node.(props := node.props[Lower(name) := val]));
    }
  }

  /** Rewriting the properties, style or listeners of node `n` touches only `n`. */
  lemma NodeWriteTouchesOnly(st: State, n: NodeId, node: Node)
    requires n in st.nodes
    requires node.kind == st.nodes[n].kind && node.parent == st.nodes[n].parent && node.children == st.nodes[n].children
    ensures TouchesOnly(st, st.(nodes := st.nodes[n := node]), n)
  {
  }

  // ---------------------------------------------------------------------
  // The attribute loop in closed form.
  // ---------------------------------------------------------------------

  /** Some attribute of the list makes `setProps` throw. */
  predicate Throws(ps: Props)
  {
    ps != [] && (Throws(ps[..|ps| - 1]) || Rejects(ps[|ps| - 1].0, ps[|ps| - 1].1))
  }

  /** The node properties the list writes: "className" as is, other plain names lower-cased, each to its last value. */
  function PropWrites(ps: Props): map<string, PropVal>
  {
    if ps == [] then map[]
    else
      var w := PropWrites(ps[..|ps| - 1]);
      var p := ps[|ps| - 1];
      if p.0 == "style" || p.0 == "ref" || p.0 == "onChange" then w
      else if p.0 == "className" then w["className" := p.1]
      else w[Lower(p.0) := p.1]
  }

  /** The style properties the list writes, each to its last value. */
  function StyleWrites(ps: Props): map<string, string>
  {
    if ps == [] then map[]
    else
      var w := StyleWrites(ps[..|ps| - 1]);
      var p := ps[|ps| - 1];
      if p.0 == "style" && p.1.PStyle? then w + StyleMap(p.1.entries) else w
  }

  /** The ref holders the list points at node `n`. */
  function RefWrites(ps: Props, n: NodeId): map<RefId, NodeId>
  {
    if ps == [] then map[]
    else
      var w := RefWrites(ps[..|ps| - 1], n);
      var p := ps[|ps| - 1];
      if p.0 == "ref" && p.1.PRef? then w[p.1.r := n] else w
  }

  /** The listeners `ls` become: each handler of the list not registered yet, in order. */
  function Registered(ls: seq<HandlerId>, ps: Props): seq<HandlerId>
  {
    if ps == [] then ls
    else
      var r := Registered(ls, ps[..|ps| - 1]);
      var p := ps[|ps| - 1];
      if p.0 == "onChange" && p.1.PHandler? && p.1.h !in r then r + [p.1.h] else r
  }

  /** Attribute `i` of the list registers handler `h`. */
  predicate Lists(ps: Props, i: int, h: HandlerId)
  {
    0 <= i < |ps| && ps[i].0 == "onChange" && ps[i].1 == PHandler(h)
  }

  lemma MapUnionAssoc<K, V>(a: map<K, V>, b: map<K, V>, c: map<K, V>)
    ensures (a + b) + c == a + (b + c)
  {
  }

  lemma MapUnionUpdate<K, V>(a: map<K, V>, b: map<K, V>, k: K, v: V)
    ensures (a + b)[k := v] == a + b[k := v]
  {
  }

  /** Node `node` after the attributes `ps` when none of them throws. */
  function Applied(node: Node, ps: Props): Node
  {
    node.(props := node.props + PropWrites(ps), style := node.style + StyleWrites(ps),
          listeners := Registered(node.listeners, ps))
  }

  /** One more attribute on top of the closed form is the closed form of the longer list. */
  lemma ApplyPropsStep(st: State, a: State, n: NodeId, ps: Props)
    requires !st.thrown && n in st.nodes && ps != [] && !Throws(ps)
    requires a == st.(nodes := st.nodes[n := Applied(st.nodes[n], ps[..|ps| - 1])],
                      refs := st.refs + RefWrites(ps[..|ps| - 1], n))
    ensures SetProp(a, n, ps[|ps| - 1].0, ps[|ps| - 1].1)
         == st.(nodes := st.nodes[n := Applied(st.nodes[n], ps)], refs := st.refs + RefWrites(ps, n))
  {
    var p := ps[|ps| - 1];
    if p.0 == "style" {
      StepStyle(st, a, n, ps);
    } else if p.0 == "ref" {
      StepRef(st, a, n, ps);
    } else if p.0 == "onChange" {
      StepListener(st, a, n, ps);
    } else {
      StepProp(st, a, n, ps);
    }
  }

  lemma StepStyle(st: State, a: State, n: NodeId, ps: Props)
    requires !st.thrown && n in st.nodes && ps != [] && !Throws(ps) && ps[|ps| - 1].0 == "style"
    requires a == st.(nodes := st.nodes[n := Applied(st.nodes[n], ps[..|ps| - 1])],
                      refs := st.refs + RefWrites(ps[..|ps| - 1], n))
    ensures SetProp(a, n, ps[|ps| - 1].0, ps[|ps| - 1].1)
         == st.(nodes := st.nodes[n := Applied(st.nodes[n], ps)], refs := st.refs + RefWrites(ps, n))
  {
    if ps[|ps| - 1].1.PStyle? {
      StepStyleObject(st, a, n, ps);
    } else {
      var front := ps[..|ps| - 1];
      var node := st.nodes[n];
      assert !Rejects(ps[|ps| - 1].0, ps[|ps| - 1].1);
      assert PropWrites(ps) == PropWrites(front);
      assert RefWrites(ps, n) == RefWrites(front, n);
      assert Registered(node.listeners, ps) == Registered(node.listeners, front);
      assert StyleWrites(ps) == StyleWrites(front);
    }
  }

  lemma StepStyleObject(st: State, a: State, n: NodeId, ps: Props)
    requires !st.thrown && n in st.nodes && ps != [] && ps[|ps| - 1].0 == "style" && ps[|ps| - 1].1.PStyle?
    requires a == st.(nodes := st.nodes[n := Applied(st.nodes[n], ps[..|ps| - 1])],
                      refs := st.refs + RefWrites(ps[..|ps| - 1], n))
    ensures SetProp(a, n, ps[|ps| - 1].0, ps[|ps| - 1].1)
         == st.(nodes := st.nodes[n := Applied(st.nodes[n], ps)], refs := st.refs + RefWrites(ps, n))
  {
    var front := ps[..|ps| - 1];
    var node := st.nodes[n];
    assert PropWrites(ps) == PropWrites(front);
    assert RefWrites(ps, n) == RefWrites(front, n);
    assert Registered(node.listeners, ps) == Registered(node.listeners, front);
    var x := Applied(node, front);
    var es := ps[|ps| - 1].1.entries;
    var y := x.(style := x.style + StyleMap(es));
    StyleObjectStep(node, x, front, ps);
    assert Applied(node, ps) == y;
    StyleObjectWrite(a, n, x, es);
    assert ps[|ps| - 1] == ("style", PStyle(es));
    Rewrite(st, a, n, x, y, st.refs + RefWrites(front, n));
  }

  /** Rewriting node `n` twice is rewriting it once with the second value. */
  lemma Rewrite(st: State, a: State, n: NodeId, x: Node, y: Node, r: map<RefId, NodeId>)
    requires a == st.(nodes := st.nodes[n := x], refs := r)
    ensures a.(nodes := a.nodes[n := y]) == st.(nodes := st.nodes[n := y], refs := r)
  {
    assert a.nodes[n := y] == st.nodes[n := y];
  }

  lemma StyleObjectWrite(a: State, n: NodeId, x: Node, es: seq<(string, string)>)
    requires !a.thrown && n in a.nodes && a.nodes[n] == x
    ensures SetProp(a, n, "style", PStyle(es)) == a.(nodes := a.nodes[n := x.(style := x.style + StyleMap(es))])
  {
    WithStylesWrite(a.nodes, n, es);
  }

  lemma StyleObjectStep(node: Node, x: Node, front: Props, ps: Props)
    requires ps != [] && front == ps[..|ps| - 1] && ps[|ps| - 1].0 == "style" && ps[|ps| - 1].1.PStyle?
    requires x == Applied(node, front)
    requires PropWrites(ps) == PropWrites(front)
    requires Registered(node.listeners, ps) == Registered(node.listeners, front)
    ensures x.(style := x.style + StyleMap(ps[|ps| - 1].1.entries)) == Applied(node, ps)
  {
    var es := ps[|ps| - 1].1.entries;
    assert StyleWrites(ps) == StyleWrites(front) + StyleMap(es);
    MapUnionAssoc(node.style, StyleWrites(front), StyleMap(es));
  }

  lemma StepRef(st: State, a: State, n: NodeId, ps: Props)
    requires !st.thrown && n in st.nodes && ps != [] && !Throws(ps) && ps[|ps| - 1].0 == "ref"
    requires a == st.(nodes := st.nodes[n := Applied(st.nodes[n], ps[..|ps| - 1])],
                      refs := st.refs + RefWrites(ps[..|ps| - 1], n))
    ensures SetProp(a, n, ps[|ps| - 1].0, ps[|ps| - 1].1)
         == st.(nodes := st.nodes[n := Applied(st.nodes[n], ps)], refs := st.refs + RefWrites(ps, n))
  {
    var front := ps[..|ps| - 1];
    var p := ps[|ps| - 1];
    var node := st.nodes[n];
    assert PropWrites(ps) == PropWrites(front);
    assert StyleWrites(ps) == StyleWrites(front);
    assert Registered(node.listeners, ps) == Registered(node.listeners, front);
    if p.1.PRef? {
      MapUnionUpdate(st.refs, RefWrites(front, n), p.1.r, n);
    }
  }

  lemma StepListener(st: State, a: State, n: NodeId, ps: Props)
    requires !st.thrown && n in st.nodes && ps != [] && !Throws(ps) && ps[|ps| - 1].0 == "onChange"
    requires a == st.(nodes := st.nodes[n := Applied(st.nodes[n], ps[..|ps| - 1])],
                      refs := st.refs + RefWrites(ps[..|ps| - 1], n))
    ensures SetProp(a, n, ps[|ps| - 1].0, ps[|ps| - 1].1)
         == st.(nodes := st.nodes[n := Applied(st.nodes[n], ps)], refs := st.refs + RefWrites(ps, n))
  {
    var front := ps[..|ps| - 1];
    var p := ps[|ps| - 1];
    var node := st.nodes[n];
    assert PropWrites(ps) == PropWrites(front);
    assert StyleWrites(ps) == StyleWrites(front);
    assert RefWrites(ps, n) == RefWrites(front, n);
    var ls := Registered(node.listeners, front);
    assert a.nodes[n].listeners == ls;
    if p.1.PHandler? {
      var h := p.1.h;
      assert SetProp(a, n, p.0, p.1) == a.(nodes := WithListener(a.nodes, n, h));
      if h in ls {
        assert Registered(node.listeners, ps) == ls;
        assert WithListener(a.nodes, n, h) == a.nodes;
      } else {
        assert Registered(node.listeners, ps) == ls + [h];
        assert WithListener(a.nodes, n, h) == a.nodes[n := a.nodes[n].(listeners := ls + [h])];
      }
    } else {
      assert !Rejects(p.0, p.1);
      assert SetProp(a, n, p.0, p.1) == a;
      assert Registered(node.listeners, ps) == ls;
    }
  }

  lemma StepProp(st: State, a: State, n: NodeId, ps: Props)
    requires !st.thrown && n in st.nodes && ps != [] && !Throws(ps)
    requires ps[|ps| - 1].0 != "style" && ps[|ps| - 1].0 != "ref" && ps[|ps| - 1].0 != "onChange"
    requires a == st.(nodes := st.nodes[n := Applied(st.nodes[n], ps[..|ps| - 1])],
                      refs := st.refs + RefWrites(ps[..|ps| - 1], n))
    ensures SetProp(a, n, ps[|ps| - 1].0, ps[|ps| - 1].1)
         == st.(nodes := st.nodes[n := Applied(st.nodes[n], ps)], refs := st.refs + RefWrites(ps, n))
  {
    var front := ps[..|ps| - 1];
    var p := ps[|ps| - 1];
    var node := st.nodes[n];
    assert StyleWrites(ps) == StyleWrites(front);
    assert RefWrites(ps, n) == RefWrites(front, n);
    assert Registered(node.listeners, ps) == Registered(node.listeners, front);
    var key := if p.0 == "className" then "className" else Lower(p.0);
    var x := Applied(node, front);
    var y := x.(props := x.props[key := p.1]);
    assert PropWrites(ps) == PropWrites(front)[key := p.1];
    MapUnionUpdate(node.props, PropWrites(front), key, p.1);
    assert Applied(node, ps) == y;
    assert SetProp(a, n, p.0, p.1) == a.(nodes := a.nodes[n := y]);
    Rewrite(st, a, n, x, y, st.refs + RefWrites(front, n));
  }

  /**
   * `Object.keys(props).forEach(...)` in one step: it throws exactly when
   * some attribute is rejected; otherwise node `n` gets the property writes,
   * the style writes and the new listeners of the list, the ref holders of
   * the list point at `n`, and nothing else changes.
   */
  lemma {:induction false} ApplyPropsEffect(st: State, n: NodeId, ps: Props)
    requires !st.thrown && n in st.nodes
    ensures ApplyProps(st, n, ps).thrown <==> Throws(ps)
    ensures !Throws(ps) ==>
      ApplyProps(st, n, ps) == st.(nodes := st.nodes[n := Applied(st.nodes[n], ps)], refs := st.refs + RefWrites(ps, n))
    decreases |ps|
  {
    var node := st.nodes[n];
    if ps == [] {
      assert node.props + map[] == node.props;
      assert node.style + map[] == node.style;
      assert st.refs + map[] == st.refs;
      assert st.nodes[n := Applied(node, ps)] == st.nodes;
    } else {
      var front := ps[..|ps| - 1];
      var p := ps[|ps| - 1];
      var a := ApplyProps(st, n, front);
      ApplyPropsEffect(st, n, front);
      if !Throws(front) {
        SetPropTable(a, n, p.0, p.1);
        if !Throws(ps) {
          ApplyPropsStep(st, a, n, ps);
        }
      }
    }
  }

  /** The handlers a list registers end up among the listeners, and the old listeners stay first, in order. */
  lemma {:induction false} RegisteredGrows(ls: seq<HandlerId>, ps: Props)
    ensures ls <= Registered(ls, ps)
    ensures forall i, h :: Lists(ps, i, h) ==> h in Registered(ls, ps)
    decreases |ps|
  {
    if ps != [] {
      var front := ps[..|ps| - 1];
      RegisteredGrows(ls, front);
      forall i, h | Lists(ps, i, h) ensures h in Registered(ls, ps) {
        if i < |ps| - 1 {
          assert Lists(front, i, h);
        }
      }
    }
  }

  /** A list whose handlers are all registered already adds no listener. */
  lemma {:induction false} RegisteredNoop(ls: seq<HandlerId>, ps: Props)
    requires forall i, h :: Lists(ps, i, h) ==> h in ls
    ensures Registered(ls, ps) == ls
    decreases |ps|
  {
    if ps != [] {
      var front := ps[..|ps| - 1];
      forall i, h | Lists(front, i, h) ensures h in ls {
        assert Lists(ps, i, h);
      }
      RegisteredNoop(ls, front);
      if ps[|ps| - 1].0 == "onChange" && ps[|ps| - 1].1.PHandler? {
        assert Lists(ps, |ps| - 1, ps[|ps| - 1].1.h);
      }
    }
  }

  /** Node `node` already shows every effect the attributes `ps` have on it, and none of them throws. */
  ghost predicate Absorbs(node: Node, ps: Props)
  {
    && !Throws(ps)
    && node.props + PropWrites(ps) == node.props
    && node.style + StyleWrites(ps) == node.style
    && Registered(node.listeners, ps) == node.listeners
  }

  /** Once the attributes are applied, the node absorbs them. */
  lemma AbsorbsAfterApply(st: State, n: NodeId, ps: Props)
    requires !st.thrown && n in st.nodes && !Throws(ps)
    ensures n in ApplyProps(st, n, ps).nodes && Absorbs(ApplyProps(st, n, ps).nodes[n], ps)
  {
    ApplyPropsEffect(st, n, ps);
    var node := st.nodes[n];
    MapUnionAssoc(node.props, PropWrites(ps), PropWrites(ps));
    MapUnionAssoc(node.style, StyleWrites(ps), StyleWrites(ps));
    assert PropWrites(ps) + PropWrites(ps) == PropWrites(ps);
    assert StyleWrites(ps) + StyleWrites(ps) == StyleWrites(ps);
    RegisteredGrows(node.listeners, ps);
    RegisteredNoop(Registered(node.listeners, ps), ps);
  }

  /** Applying attributes a node absorbs changes no node; only ref holders are pointed at it. */
  lemma ApplyPropsAbsorbed(st: State, n: NodeId, ps: Props)
    requires !st.thrown && n in st.nodes && Absorbs(st.nodes[n], ps)
    ensures ApplyProps(st, n, ps) == st.(refs := st.refs + RefWrites(ps, n))
  {
    ApplyPropsEffect(st, n, ps);
    assert st.nodes[n := st.nodes[n]] == st.nodes;
  }

  /** Applying the same attributes twice is applying them once. */
  lemma ApplyPropsIdempotent(st: State, n: NodeId, ps: Props)
    requires n in st.nodes
    ensures ApplyProps(ApplyProps(st, n, ps), n, ps) == ApplyProps(st, n, ps)
  {
    var s := ApplyProps(st, n, ps);
    if st.thrown {
      ApplyPropsThrown(st, n, ps);
      ApplyPropsThrown(s, n, ps);
    } else {
      ApplyPropsEffect(st, n, ps);
      if Throws(ps) {
        ApplyPropsThrown(s, n, ps);
      } else {
        AbsorbsAfterApply(st, n, ps);
        ApplyPropsAbsorbed(s, n, ps);
        MapUnionAssoc(st.refs, RefWrites(ps, n), RefWrites(ps, n));
        assert RefWrites(ps, n) + RefWrites(ps, n) == RefWrites(ps, n);
      }
    }
  }

  /** Applying all attributes changes node `n` and refs aimed at `n`, and nothing else. */
  lemma {:induction false} ApplyPropsFrame(st: State, n: NodeId, ps: Props)
    requires n in st.nodes
    ensures TouchesOnly(st, ApplyProps(st, n, ps), n)
    decreases |ps|
  {
    if ps != [] {
      var front := ApplyProps(st, n, ps[..|ps| - 1]);
      ApplyPropsFrame(st, n, ps[..|ps| - 1]);
      var p := ps[|ps| - 1];
      if !front.thrown {
        SetPropFrame(front, n, p.0, p.1);
      }
    }
  }

  /** Once an exception is unwinding, applying attributes does nothing. */
  lemma {:induction false} ApplyPropsThrown(st: State, n: NodeId, ps: Props)
    requires st.thrown
    ensures ApplyProps(st, n, ps) == st
    decreases |ps|
  {
    if ps != [] {
      ApplyPropsThrown(st, n, ps[..|ps| - 1]);
    }
  }
}
