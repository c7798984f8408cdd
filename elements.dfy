/**
 * The element model of react/react.ts and react/other/types.ts: what `createElement`
 * builds, the values that may stand where an element is expected, and the
 * `flattenChildren` helper the renderer applies to children lists.
 *
 * An element is an object in the source. Here it is a value carrying an `id`
 * that stands for the object's identity; the mutable `dom` field of the object
 * lives in a side map owned by the renderer (module Session).
 */
module Elements {

  /** Identity of an element object. */
  type ElemId = nat
  /** Identity of a `{ current }` ref holder object. */
  type RefId = nat
  /** Identity of a function value passed as an event handler. */
  type HandlerId = nat
  /** Identity of a component function. */
  type FunId = nat

  /** A tag is a host tag name, or a component function with its `name` property. */
  datatype Tag = Prim(name: string) | Comp(fid: FunId, name: string)

  /**
   * An attribute value: a string, a number, a style object given as its
   * (property, value) pairs in key order, a ref holder, a function, or
   * null/undefined.
   */
  datatype PropVal =
    | PStr(s: string)
    | PNum(n: int)
    | PStyle(entries: seq<(string, string)>)
    | PRef(r: RefId)
    | PHandler(h: HandlerId)
    | PNull

  /** The `props` object, as its (key, value) pairs in key order. */
  type Props = seq<(string, PropVal)>

  /** Anything that may stand where the renderer expects an element. */
  datatype Value =
    | Absent                      // null, undefined or false
    | Str(s: string)
    | Num(n: int)
    | Arr(items: seq<Value>)
    | El(id: ElemId, tag: Tag, props: Props, children: seq<Value>)

  /** JavaScript falsiness of a value: `!v` holds. */
  predicate Falsy(v: Value)
  {
    v.Absent? || v == Str("") || v == Num(0)
  }

  /** `typeof v` is "string" or "number". */
  predicate IsText(v: Value)
  {
    v.Str? || v.Num?
  }

  /** `typeof a == typeof b` for two values that are neither arrays nor falsy. */
  predicate SameType(a: Value, b: Value)
  {
    (a.Str? && b.Str?) || (a.Num? && b.Num?) || (a.El? && b.El?)
  }

  /**
   * `createElement(tag, props, ...children)` for the element object with
   * identity `id`: the arguments are stored exactly as given; in particular
   * the children are not flattened.
   */
  function CreateElement(id: ElemId, tag: Tag, props: Props, children: seq<Value>): (e: Value)
    ensures e.El? && e.id == id && e.tag == tag && e.props == props && e.children == children
  {
    El(id, tag, props, children)
  }

  /** Size measure used for termination: every constructor that holds values counts one. */
  function Size(v: Value): nat
  {
    match v
    case Absent => 0
    case Str(_) => 1
    case Num(_) => 1
    case Arr(items) => 1 + SizeAll(items)
    case El(_, _, _, children) => 1 + SizeAll(children)
  }

  function SizeAll(vs: seq<Value>): nat
  {
    if vs == [] then 0 else SizeAll(vs[..|vs| - 1]) + Size(vs[|vs| - 1])
  }

  lemma {:induction false} SizeAllAppend(a: seq<Value>, b: seq<Value>)
    ensures SizeAll(a + b) == SizeAll(a) + SizeAll(b)
    decreases |b|
  {
    if b == [] {
      assert a + b == a;
    } else {
      var b' := b[..|b| - 1];
      assert (a + b)[..|a + b| - 1] == a + b';
      assert (a + b)[|a + b| - 1] == b[|b| - 1];
      SizeAllAppend(a, b');
    }
  }

  /** The value at position `i`, or `undefined` past the end (JavaScript's `xs[i]`). */
  function At(vs: seq<Value>, i: nat): (r: Value)
    ensures i < |vs| ==> r == vs[i]
    ensures i >= |vs| ==> r == Absent
  {
    if i < |vs| then vs[i] else Absent
  }

  lemma {:induction false} SizeAt(vs: seq<Value>, i: nat)
    ensures Size(At(vs, i)) <= SizeAll(vs)
    decreases |vs|
  {
    if i < |vs| && i < |vs| - 1 {
      SizeAt(vs[..|vs| - 1], i);
    }
  }

  /** No member of the list is itself an array. */
  predicate IsFlat(vs: seq<Value>)
  {
    forall i :: 0 <= i < |vs| ==> !vs[i].Arr?
  }

  /**
   * `flattenChildren(v)`: nested arrays are spliced into one list, left to
   * right; a value that is not an array becomes a one-element list.
   */
  function Flatten(v: Value): (r: seq<Value>)
    ensures IsFlat(r)
    ensures SizeAll(r) + (if v.Arr? then 1 else 0) <= Size(v)
    ensures !v.Arr? ==> r == [v]
  {
    if v.Arr? then FlattenAll(v.items) else assert [v][..0] == []; [v]
  }

  function FlattenAll(vs: seq<Value>): (r: seq<Value>)
    ensures IsFlat(r)
    ensures SizeAll(r) <= SizeAll(vs)
  {
    if vs == [] then []
    else
      var front := FlattenAll(vs[..|vs| - 1]);
      var back := Flatten(vs[|vs| - 1]);
      SizeAllAppend(front, back);
      front + back
  }

  /** Flattening distributes over concatenation. */
  lemma {:induction false} FlattenAllAppend(a: seq<Value>, b: seq<Value>)
    ensures FlattenAll(a + b) == FlattenAll(a) + FlattenAll(b)
    decreases |b|
  {
    if b == [] {
      assert a + b == a;
    } else {
      var b' := b[..|b| - 1];
      assert (a + b)[..|a + b| - 1] == a + b';
      assert (a + b)[|a + b| - 1] == b[|b| - 1];
      FlattenAllAppend(a, b');
      calc {
        FlattenAll(a + b);
        FlattenAll(a + b') + Flatten(b[|b| - 1]);
        FlattenAll(a) + FlattenAll(b') + Flatten(b[|b| - 1]);
        FlattenAll(a) + (FlattenAll(b') + Flatten(b[|b| - 1]));
        FlattenAll(a) + FlattenAll(b);
      }
    }
  }

  /** A list without arrays is its own flattening. */
  lemma {:induction false} FlattenAllFlat(vs: seq<Value>)
    requires IsFlat(vs)
    ensures FlattenAll(vs) == vs
    decreases |vs|
  {
    if vs != [] {
      FlattenAllFlat(vs[..|vs| - 1]);
    }
  }

  /** Flattening is idempotent. */
  lemma FlattenIdempotent(v: Value)
    ensures FlattenAll(Flatten(v)) == Flatten(v)
  {
    FlattenAllFlat(Flatten(v));
  }

  /** The element objects in `v`: `v` itself when it is one, and those among its members or children, at any depth. */
  function Elems(v: Value): set<Value>
    decreases Size(v), 0, 0
  {
    match v
    case Arr(items) => ElemsAll(items)
    case El(_, _, _, children) => {v} + ElemsAll(children)
    case _ => {}
  }

  function ElemsAll(vs: seq<Value>): set<Value>
    decreases SizeAll(vs), 1, |vs|
  {
    if vs == [] then {} else ElemsAll(vs[..|vs| - 1]) + Elems(vs[|vs| - 1])
  }

  /** Every member of `es` is an element with a host tag. */
  ghost predicate AllHost(es: set<Value>)
  {
    forall e :: e in es ==> e.El? && e.tag.Prim?
  }

  /** No component appears in `v`: every element object in it has a host tag. */
  ghost predicate HostOnly(v: Value)
  {
    AllHost(Elems(v))
  }

  /** Element ids are object identities: two elements with the same id are the same element. */
  ghost predicate Coherent(es: set<Value>)
  {
    forall a, b :: a in es && b in es && a.El? && b.El? && a.id == b.id ==> a == b
  }

  lemma CoherentSubset(a: set<Value>, b: set<Value>)
    requires Coherent(a) && b <= a
    ensures Coherent(b)
  {
  }

  lemma AllHostSubset(a: set<Value>, b: set<Value>)
    requires AllHost(a) && b <= a
    ensures AllHost(b)
  {
  }

  lemma {:induction false} ElemsAllAppend(a: seq<Value>, b: seq<Value>)
    ensures ElemsAll(a + b) == ElemsAll(a) + ElemsAll(b)
    decreases |b|
  {
    if b == [] {
      assert a + b == a;
    } else {
      var b' := b[..|b| - 1];
      assert (a + b)[..|a + b| - 1] == a + b';
      assert (a + b)[|a + b| - 1] == b[|b| - 1];
      ElemsAllAppend(a, b');
    }
  }

  /** Flattening keeps exactly the element objects of a value. */
  lemma {:induction false} ElemsFlatten(v: Value)
    ensures ElemsAll(Flatten(v)) == Elems(v)
    decreases Size(v), 0, 0
  {
    if v.Arr? {
      ElemsFlattenAll(v.items);
    } else {
      assert [v][..0] == [];
    }
  }

  lemma {:induction false} ElemsFlattenAll(vs: seq<Value>)
    ensures ElemsAll(FlattenAll(vs)) == ElemsAll(vs)
    decreases SizeAll(vs), 1, |vs|
  {
    if vs != [] {
      var front := vs[..|vs| - 1];
      ElemsFlattenAll(front);
      ElemsFlatten(vs[|vs| - 1]);
      ElemsAllAppend(FlattenAll(front), Flatten(vs[|vs| - 1]));
    }
  }

  /** The element objects of a member are among those of the list. */
  lemma {:induction false} ElemsAt(vs: seq<Value>, i: nat)
    ensures Elems(At(vs, i)) <= ElemsAll(vs)
    decreases |vs|
  {
    if i < |vs| - 1 {
      ElemsAt(vs[..|vs| - 1], i);
    }
  }

  /** `String(n)` for an integer: its decimal digits, with a leading '-' when negative. */
  function IntToString(n: int): (r: string)
    ensures |r| > 0
    ensures n < 0 <==> r[0] == '-'
  {
    if n < 0 then "-" + NatToString(-n) else NatToString(n)
  }

  function NatToString(n: nat): (r: string)
    ensures |r| > 0
    ensures forall i :: 0 <= i < |r| ==> '0' <= r[i] <= '9'
  {
    if n < 10 then [Digit(n)] else NatToString(n / 10) + [Digit(n % 10)]
  }

  function Digit(d: nat): (c: char)
    requires d < 10
    ensures '0' <= c <= '9'
  {
    "0123456789"[d]
  }

  /** `v.toString()` for a string or a number. */
  function ToText(v: Value): string
    requires IsText(v)
  {
    if v.Str? then v.s else IntToString(v.n)
  }
}
