/**
 * The state react/render.tsx works on, as one value: the host's node table,
 * the module-level `components` registry and `previousEl`, the `dom` field of
 * every element object and the `current` field of every ref holder. The flag
 * `thrown` records that an exception is unwinding: every operation leaves a
 * state with `thrown` set as it is, so the steps after a throw do not happen.
 */
module Session {
  import opened Wrappers
  import opened Elements
  import opened Dom

  /** One entry of `components`: a component's `name` and the element it returned. */
  datatype Record = Record(name: string, component: Value)

  /** Calling the component function `fid` with `{...props, children}`. */
  type Expander = (FunId, Props, seq<Value>) -> Value

  /**
   * What the renderer cannot see into: the component functions, and the node
   * `document.getElementById("root")` found when the module was loaded.
   */
  datatype Env = Env(expand: Expander, root: Option<NodeId>)

  /** The `mode` argument of `mount`. */
  datatype Mode = Append | Replace

  datatype State = State(
    nodes: Nodes,
    next: NodeId,
    components: seq<Record>,
    dom: map<ElemId, NodeId>,
    refs: map<RefId, NodeId>,
    previousEl: Value,
    thrown: bool)

  /** Fresh node ids are above every id in use, and every `dom` and `current` points into the table. */
  ghost predicate Wf(st: State)
  {
    && Bounded(st.nodes, st.next)
    && (forall e :: e in st.dom ==> st.dom[e] in st.nodes)
    && (forall r :: r in st.refs ==> st.refs[r] in st.nodes)
  }

  /** `el.dom` of element `id`, when set. */
  function DomOf(st: State, id: ElemId): (r: Option<NodeId>)
    ensures r.Some? <==> id in st.dom
    ensures r.Some? ==> r.value == st.dom[id]
  {
    if id in st.dom then Some(st.dom[id]) else None
  }

  /** `components.find(c => c.name === name)`: the first record with that name. */
  function FindByName(components: seq<Record>, name: string): (r: Option<Record>)
    ensures r.None? <==> forall i :: 0 <= i < |components| ==> components[i].name != name
    ensures r.Some? ==> exists i :: 0 <= i < |components| && components[i] == r.value
                             && r.value.name == name
                             && forall j :: 0 <= j < i ==> components[j].name != name
  {
    if components == [] then None
    else if components[0].name == name then Some(components[0])
    else
      var r := FindByName(components[1..], name);
      assert r.Some? ==> exists i :: 1 <= i < |components| && components[i] == r.value
                                 && forall j :: 1 <= j < i ==> components[j].name != name by {
        if r.Some? {
          var i :| 0 <= i < |components[1..]| && components[1..][i] == r.value
                   && forall j :: 0 <= j < i ==> components[1..][j].name != name;
          assert components[i + 1] == r.value;
          assert forall j :: 1 <= j < i + 1 ==> components[j].name != name by {
            forall j | 1 <= j < i + 1 ensures components[j].name != name {
              assert components[j] == components[1..][j - 1];
            }
          }
        }
      }
      assert r.None? ==> forall i :: 0 <= i < |components| ==> components[i].name != name by {
        if r.None? {
          forall i | 0 <= i < |components| ensures components[i].name != name {
            if i > 0 { assert components[i] == components[1..][i - 1]; }
          }
        }
      }
      r
  }
}
