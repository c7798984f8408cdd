# ft_react renderer core, modelled in Dafny

ft_react is a small React-like library. Its renderer (react/render.tsx) keeps
two pieces of module state: `previousEl`, the tree rendered last, and
`components`, a registry of `{ name, component }` records, one for each
component call made while mounting. `render(el, container)` mounts the tree
on its first call. On later calls it reconciles the new tree against
`previousEl`:
- `mount` builds host nodes;
- `update` patches text, attributes and children in place, position by position;
- `setProps` writes one attribute (style, ref, className, onChange, or a
  lower-cased property).

react/react.ts provides `createElement`, and `createContext` with a mutable
context object whose `Provider` installs a value that `useContext` reads.

The model has two layers:

- **Specification layer** (modules `Elements`, `Dom`, `Session`,
  `Attributes`, `Reconcile`). `mount`, `update`, `setProps` and `render` are
  pure functions from one `State` to the next.
  - A `State` holds the node table of the document and the module state.
  - It also holds the `dom` field of every element object and the `current`
    field of every ref holder. Both are side maps keyed by the object's
    identity.
  - It has a flag `thrown`, set once a JavaScript exception is unwinding.
    Every operation leaves a thrown state unchanged, so the steps after a
    throw do not happen.
- **Imperative layer** (class `Renderer.Renderer` over a `Dom.Document`).
  This is how the source is written: the document's nodes and the module
  variables are fields updated in place, and loops run over attributes,
  children and array members. Each method is proved to leave exactly the
  state that the specification function computes from the old state. It
  returns `ok == false` exactly when the specification throws.

The lemmas in `MountFacts`, `UpdateFacts`, `RenderFacts` and
`RerenderFacts` state what the specification functions do. They cover:
- the frame (what changes and what does not);
- what node a mount creates and where it attaches;
- each rule of `update`, tried in the source's order;
- what `render` does on its first and later calls;
- that rendering the same tree without components twice leaves the page
  as it was, and that growing an array at its end leaves the nodes of the
  common prefix untouched.

They also pin down three behaviours of the code as written:
- records in `components` are never replaced on update;
- in a top-level array `[a, b]` on the first render, `b` is reconciled
  against `a` instead of being mounted;
- re-rendering a top-level string never changes the page.

Two behaviours of the code that a reader might not expect:
- the component registry keeps its first record for a name, and an update
  never replaces it;
- `mount` of `null`/`undefined` throws (in the model, `Absent`), and `""` and
  `0` become text nodes. Whether such values ever reach `mount` as children
  depends on `flattenChildren`, which the model assumes does not filter them
  out (see "## Left out").

Things the renderer cannot see are parameters of the model (`Session.Env`):
- the component functions (`expand`);
- the node `document.getElementById("root")` found when the module loaded
  (`root`).

## Model

| member | source | states |
|---|---|---|
| Elements.CreateElement | react/react.ts:6-15 | the element stores its tag, props and children exactly as given; the children are not flattened |
| Elements.FlattenAllAppend | react/render.tsx:59 | flattening a children list distributes over concatenation, so children flatten one member at a time |
| Elements.FlattenIdempotent | react/render.tsx:85-86 | flattening a flattened list changes nothing: the lists `update` walks contain no arrays |
| Dom.AppendChildEffect | react/render.tsx:34 | appending a parentless node adds it at the end of the parent's children, sets its parent and changes no other node |
| Dom.DetachEffect | react/render.tsx:99 | `remove()` gives the parent the children list `Without(children, n)` and the node no parent, with every other field of both and every other node unchanged |
| Dom.WithoutAppend | react/render.tsx:99 | dropping a node from a children list works piece by piece over a concatenation, so the remaining siblings keep their order |
| Dom.WithoutOnce | react/render.tsx:99 | removing a child that occurs once at position `i` keeps the siblings before it at their positions and moves the ones after it up by one, which is what later reads of `childNodes[childIndex]` see |
| Dom.SetNodeValueEffect | react/render.tsx:117 | setting `nodeValue` rewrites the text of a text node, keeps its place in the tree and does nothing to an element node |
| Dom.AddListenerIdempotent | react/render.tsx:171-173 | registering the same handler twice for `input` has the effect of registering it once |
| Session.FindByName | react/render.tsx:127 | `components.find` by name: the first record with that name, or none exactly when no record has it |
| Attributes.LowerIdempotent | react/render.tsx:175 | the lower-cased property name contains no upper-case letter, and lower-casing again changes nothing |
| Attributes.WithStylesEffect | react/render.tsx:160-164 | writing a style object sets each listed property, later entries winning, on that node only |
| Attributes.SetPropTable | react/render.tsx:158-177 | the whole new state for each `setProps` case. It throws exactly for a null style, a primitive or null ref holder, or a primitive listener. A style object writes its entries into the node's style; a ref holder is pointed at the node with the other refs unchanged; `className` and other names write the (lower-cased) property; a handler is appended after the old listeners, in order, unless already registered. Nothing else in the state changes |
| Attributes.SetPropFrame | react/render.tsx:158-177 | one `setProps` changes only the target node's properties, style and listeners, and refs now pointing at it |
| Attributes.ApplyPropsEffect | react/render.tsx:52-56 | the attribute loop throws exactly when one attribute throws; otherwise the node ends with the attributes' writes merged in, later keys winning, their handlers registered in order, and the listed ref holders pointed at it |
| Attributes.AbsorbsAfterApply | react/render.tsx:52-56 | after the attribute loop the node shows every attribute: each property and style entry holds its value and each handler is registered |
| Attributes.ApplyPropsIdempotent | react/render.tsx:52-56 | applying the same attribute list twice has the effect of applying it once, whether or not it throws |
| Attributes.ApplyPropsAbsorbed | react/render.tsx:140-145 | applying attributes a node already shows changes no node; only the listed ref holders are pointed at it again |
| Attributes.ApplyPropsFrame | react/render.tsx:52-56 | applying all attributes changes only the target node and refs pointing at it |
| Attributes.ApplyPropsThrown | react/render.tsx:52-56 | once an attribute throws, the remaining attributes are not applied |
| Reconcile.MountAllPrefixThrown | react/render.tsx:26 | when mounting one child throws, the children after it are not mounted |
| Reconcile.UpdateListPrefixThrown | react/render.tsx:92 | when one positional update throws, the later positions are not updated |
| Reconcile.RenderAllPrefixThrown | react/render.tsx:182 | when rendering one array member throws, the later members are not rendered |
| MountFacts.GrowsTrans | react/render.tsx:24-67 | the mount frame composes across successive mounts into the same container |
| MountFacts.MountGrows | react/render.tsx:24-67 | mounting only adds fresh nodes and changes no existing node other than the container. The container's children are extended by fresh nodes. Registry records are only appended, new `dom` and `current` entries point at fresh nodes, and the state stays well formed |
| MountFacts.MountTextEffect | react/render.tsx:32-36 | a string or number becomes one fresh text node holding its text, appended to the container in either mode; nothing else changes |
| MountFacts.MountTextsEffect | react/render.tsx:25-28 | mounting a list of strings and numbers appends one text node per member, in order, under consecutive fresh ids |
| MountFacts.MountArrayEffect | react/render.tsx:25-28 | an array mounts each member into the container, and the mode is not passed on |
| MountFacts.MountCompositeEffect | react/render.tsx:38-48 | a component is called, `{ name, component }` is pushed on the registry, and the result is mounted into the same container in append mode; with no fuel left the call overflows |
| MountFacts.MountPrimitiveEffect | react/render.tsx:50-66 | a host element gets a fresh node of its tag whose children are all fresh, and it becomes the element's `dom`. None of its attributes threw; the node carries exactly their property, style and listener writes and shows every one of them. Append mode adds it at the end of the container and changes no other old node; replace mode puts it at the container's place in the container's parent |
| MountFacts.MountOneShows | react/render.tsx:32-66 | mounting one non-array value without components makes exactly one child of the container, the next fresh node, showing the value's text, or its tag and attributes |
| MountFacts.MountAllShows | react/render.tsx:59-61 | the children a container gains from mounting a flat list without components are, one for one and in order, nodes depicting the list's members, each with the container as parent |
| MountFacts.MountHostChildren | react/render.tsx:58-62 | in either mode, the children of a host element's new node are, one for one and in order, nodes depicting the members of its flattened children (trees without components) |
| UpdateFacts.UpdateKeeps | react/render.tsx:78-156 | an update never frees a node id (no id leaves the node table, though nodes may be detached), only appends to the registry, leaves `previousEl` alone and keeps the state well formed |
| UpdateFacts.UpdateKeepsRecords | react/render.tsx:124-133 | the record an update finds for a component name is the same after any later update: records are never replaced |
| UpdateFacts.UpdateOverFalsy | react/render.tsx:97-107 | over any falsy previous value (`undefined`, `null`, `false`, `""`, `0`), a truthy new value is mounted into the given parent in append mode, or nothing happens when there is none; a falsy new value over `undefined` changes nothing |
| UpdateFacts.UpdateToAbsent | react/render.tsx:97-101 | a missing new value (`null`, `undefined` or `false`) removes the previous element's node, and does nothing over a previous string or number |
| UpdateFacts.UpdateListAppendOnly | react/render.tsx:92-107 | positions past the end of the previous list mount the truthy new members into the parent, in order, and skip the falsy ones |
| UpdateFacts.UpdateListRemoveOnly | react/render.tsx:92 | positions past the end of the new list remove the previous members' nodes, in order |
| UpdateFacts.UpdateArrayGrows | react/render.tsx:84-95 | when an array grows, the common prefix is reconciled position by position and the extra truthy members are mounted, in order, under the first previous node's parent, or the given parent; falsy extra members are skipped |
| UpdateFacts.UpdateArrayShrinks | react/render.tsx:84-95 | when an array shrinks, the common prefix is reconciled and the extra previous members are removed |
| UpdateFacts.UpdateNoChange | react/render.tsx:78-138 | nothing changes in each of these cases: no root container; a falsy new value over text; a type mismatch; a host element whose children count changed; a component with no record |
| UpdateFacts.UpdateTextEffect | react/render.tsx:114-120 | equal text changes nothing; otherwise the text node at `childIndex` under the parent gets the new text, and only that node changes; with no such child nothing happens |
| UpdateFacts.UpdatePrimitiveDom | react/render.tsx:155 | after patching a host element, the new element's `dom` is the previous element's `dom` |
| UpdateFacts.UpdateLeafEffect | react/render.tsx:140-145 | a childless host element is patched by applying the new attributes to the previous element's node and passing that node on as the new `dom` |
| RenderFacts.RenderEffect | react/render.tsx:186-195 | the first render clears the registry and mounts into the container; later renders update against the previous tree with no parent; afterwards the rendered value is `previousEl` unless an exception escaped |
| RenderFacts.RenderWf | react/render.tsx:180-196 | every render keeps the state well formed |
| RenderFacts.RenderArrayLast | react/render.tsx:181-184 | after a top-level array renders, its last member is `previousEl` |
| RenderFacts.RenderPairUpdatesSecond | react/render.tsx:181-195 | rendering `[a, b]` with no previous tree mounts `a`, then reconciles `b` against `a` as the previous tree |
| RenderFacts.RenderTextAgainNoDisplayChange | react/render.tsx:114-120 | re-rendering a top-level string or number over a previous one leaves every node as it was |
| RerenderFacts.MountSettles | react/render.tsx:24-67 | mounting a tree without components, whose element ids are used consistently, gives every element a `dom`, and every element's `dom` shows all of its attributes |
| RerenderFacts.UpdateSame | react/render.tsx:78-156 | updating a tree without components against itself, when each `dom` shows its element's attributes, changes no node, no `dom`, no record and not `previousEl`; only ref holders may be pointed again |
| RerenderFacts.RenderSameAgain | react/render.tsx:180-196 | rendering the tree that is already `previousEl` (truthy, no components, `dom`s showing their attributes) changes nothing but ref holders |
| RerenderFacts.RenderTwice | react/render.tsx:180-196 | from no previous tree, rendering a truthy tree without components twice: unless the first call threw, the second changes nothing but ref holders |
| RerenderFacts.UpdateArrayKeepsPrefix | react/render.tsx:84-95 | growing an array at its end (`[a, b]` to `[a, b, c]`): the common positions change nothing but ref holders, and the extra entries only add fresh nodes under the parent, so the old nodes of `a` and `b` are untouched |
| Renderer.Renderer.constructor | react/render.tsx:6-7 | the renderer starts with no previous tree, an empty registry, and no `dom` or `current` set |
| Renderer.Renderer.SetProps | react/render.tsx:158-177 | writing one attribute in place leaves exactly the state `Attributes.SetProp` describes |
| Renderer.Renderer.ApplyAllProps | react/render.tsx:52-56 | the attribute loop leaves exactly the state `Attributes.ApplyProps` describes |
| Renderer.Renderer.Mount | react/render.tsx:24-67 | `mount` in place leaves exactly the state `Reconcile.Mount` describes, and reports whether it threw |
| Renderer.Renderer.MountHost | react/render.tsx:50-66 | creating, filling and attaching a host node in place matches `Reconcile.Mount` on host elements |
| Renderer.Renderer.MountEach | react/render.tsx:59-61 | the children loop of `mount` matches `Reconcile.MountAll` |
| Renderer.Renderer.Update | react/render.tsx:78-156 | `update` in place leaves exactly the state `Reconcile.Update` describes, and reports whether it threw |
| Renderer.Renderer.UpdateValue | react/render.tsx:97-138 | the rules of `update` after the array rule, in place, match `Reconcile.Update` |
| Renderer.Renderer.UpdateHost | react/render.tsx:140-155 | patching a host element in place matches `Reconcile.Update` on host elements |
| Renderer.Renderer.UpdatePositional | react/render.tsx:88-92 | the positional loop over two flattened lists matches `Reconcile.UpdateList` |
| Renderer.Renderer.UpdateChildrenAt | react/render.tsx:147-153 | the children loop of `update` matches `Reconcile.UpdateChildren` |
| Renderer.Renderer.Render | react/render.tsx:180-196 | `render` in place leaves exactly the state `Reconcile.Render` describes |
| Dom.Document.CreateElement | react/render.tsx:50 | `createElement` adds one fresh, parentless element node of the tag and keeps the table well formed |
| Dom.Document.CreateTextNode | react/render.tsx:33 | `createTextNode` adds one fresh, parentless text node holding the text and keeps the table well formed |
| Dom.Document.AppendChild | react/render.tsx:65 | `appendChild` detaches the node from its old parent and adds it at the end of the new one |
| Dom.Document.ReplaceWith | react/render.tsx:64 | `replaceWith` puts the new node at the old node's place in the old node's parent |
| Dom.Document.Remove | react/render.tsx:99 | `remove()` detaches the node from its parent |
| Dom.Document.SetNodeValue | react/render.tsx:117 | setting `nodeValue` rewrites the text of a text node |
| Dom.Document.SetStyle | react/render.tsx:160-164 | writing one style property of a node |
| Dom.Document.SetProperty | react/render.tsx:166-176 | writing one property of a node (`className` or a lower-cased name) |
| Dom.Document.AddEventListener | react/render.tsx:171-173 | registering an `input` listener on a node, once per handler |
| Context.Provided | react/react.ts:23 | the value a Provider installs is the given one, or the default when none is given |
| Context.Context.constructor | react/react.ts:17-21 | a new context holds its default value and records that no Provider has run |
| Context.Context.Provider | react/react.ts:22-26 | a Provider sets the current value to the given one or to the default, records that it ran, and returns its children unchanged |
| Context.ProvideThenUse | react/react.ts:17-33 | `useContext` reads the default before any Provider runs. After a Provider runs it reads that Provider's value, or the default when none was given, and a later Provider overrides an earlier one |

## Left out

- `reRender`, `isMounted`, and the lookup of the root container (react/render.tsx:198-214) are not modelled. They are routing, hook reset, a debounce timer and module loading; the root container is the parameter `Env.root`.
- `console.log` and `console.error` output is not modelled; those branches return as in the source.
- react/utils.ts is not part of this model. The model takes `flattenChildren` to splice nested arrays recursively and to wrap a non-array argument in a one-element list, keeping every other member, falsy ones included, in order. It takes `clearArray` to empty the array.
- Numbers are integers. Floating-point values and their `toString` forms are not modelled, and `JSON.stringify(a) != JSON.stringify(b)` is modelled as inequality of the two values.
- `toLowerCase` is modelled for ASCII letters only.
- Component functions are the abstract parameter `Env.expand`. The model does not capture the effects they have when called, their hooks, or the `dom` entry `mount` passes in their props. Nesting of component calls is bounded by a `fuel` argument; when it runs out the model throws, standing for a stack overflow.
- The DOM is an abstract node table. Hierarchy errors (appending a node into its own subtree) are not modelled. `remove` and `replaceWith` on a parentless node do nothing, and setting `nodeValue` on an element node does nothing.
- Dom.AddListenerIdempotent: `addEventListener` with a handler already registered for `input` is a no-op, as the DOM specifies. The source calls it again on every update; the model adds a listener only when the handler is a different function value.
- A style value that is a string, number, function or ref holder is modelled as having no effect. In the source, such a value may write indexed or named style properties.
- `false` is modelled like `null` and `undefined` (`Absent`), which throws when mounted, before anything is created. In the source, `mount(false)` does not throw at once: `false.tag` is `undefined`, so it creates an element named `undefined` (react/render.tsx:50), appends it to the container (line 65), and only then throws on `el.dom = domEl`, a property write on a primitive (line 66). The model's state after that throw lacks that one orphan `<undefined>` element. A `true` child is not modelled.
- Attributes.SetPropTable: an `onChange` value that is a style object or a ref holder is modelled as having no effect. The DOM would register such an object as an `input` listener (an object listener whose `handleEvent` is missing). Only function values are registered in the model.
- RerenderFacts.RenderTwice, RerenderFacts.RenderSameAgain, RerenderFacts.UpdateSame: hold only for trees without components. `update` reconciles a component against `components.find` by name (react/render.tsx:127), which returns the first record with that name. So when two instances of one component appear in a tree, the second is reconciled against the first instance's output and re-rendering can change the page. They also need a truthy, non-array top level: a falsy previous tree is mounted again on each render (react/render.tsx:186), and an array re-renders member against member (react/render.tsx:181-184). Ref holders named in the attributes are pointed at their nodes again, so `refs` may change.
- RerenderFacts.MountSettles: states that every element of the tree gets a `dom` showing its attributes, not that each `dom` is attached under the container. Attachment is stated one level at a time: MountFacts.MountPrimitiveEffect puts the top node under the container, MountFacts.MountHostChildren puts each host element's child nodes under its node, and MountFacts.MountGrows says later mounts change no old node's parent. The whole-tree chain of parent links up to the container is not stated as one lemma.
- Reconcile.Render, Renderer.Renderer.Render: the container is a node id, so `render(el, null)` is not modelled. In the source, `reRender` passes the module's `container` (react/render.tsx:198, 208), which may be null. A first render then calls any components (react/render.tsx:41) and throws at `appendChild` on null (react/render.tsx:34 or 65). `Env.root == None` stands only for the test at the head of `update` (react/render.tsx:79-82); `render` and `mount` assume a non-null container.
- MountFacts.MountPrimitiveEffect: states the new node's tag, attributes and `dom`, and that its children are fresh, but not which children it gets. MountFacts.MountHostChildren states that the children depict the flattened children, in order. RerenderFacts.MountSettles states that every host element reached gets a `dom`. Both hold only for trees without components, because a component's output is an arbitrary `Env.expand` value.
- The `contexts` map of react.ts is never used by the source and is not modelled.
- A Provider used as a component inside a tree is an `Env.expand` function like any other, so `render` is not connected to the context objects.
- Context.UseContext: carries no contract of its own. `Context.ProvideThenUse` states what it returns.
- The hooks (react/hooks) and the hot reload module are not part of the core and are not modelled.
