/** Normalized Move types, as the explorer receives them over RPC, and the
    unwrapping of a type down to the named struct it refers to. */
module MoveTypes {

  datatype Option<T> = None | Some(value: T)

  /** The identity of a named on-chain type: where it is defined and the type
      arguments it is instantiated with. */
  datatype TypeReference = TypeReference(
    address: string,
    moduleName: string,
    name: string,
    typeArguments: seq<NormalizedType>)

  /** A normalized Move type. In the RPC encoding the primitives are bare
      strings ("Bool", "U64", "Address", ...), every other variant is an object
      with a single key; `Unhandled` stands for an object with none of the keys
      the explorer looks at. */
  datatype NormalizedType =
    | Primitive(primitive: string)
    | TypeParameter(index: nat)
    | Reference(inner: NormalizedType)
    | MutableReference(inner: NormalizedType)
    | Vector(inner: NormalizedType)
    | Struct(reference: TypeReference)
    | Unhandled(key: string)

  /** Takes a normalized type and returns the struct reference it contains,
      looking through references, mutable references and vectors. */
  function Unwrap(t: NormalizedType): Option<TypeReference>
  {
    match t
    case Struct(reference) => Some(reference)
    case Reference(inner) => Unwrap(inner)
    case MutableReference(inner) => Unwrap(inner)
    case Vector(inner) => Unwrap(inner)
    case _ => None
  }

  // ---------------------------------------------------------------------------
  // An independent description of what Unwrap finds: every type is a stack of
  // indirection layers over a base that is not itself a layer.

  /** The three variants Unwrap looks through. */
  datatype Indirection = ByReference | ByMutableReference | ByVector

  predicate IsIndirection(t: NormalizedType)
  {
    t.Reference? || t.MutableReference? || t.Vector?
  }

  function Layer(k: Indirection, t: NormalizedType): (r: NormalizedType)
    ensures IsIndirection(r) && r.inner == t
  {
    match k
    case ByReference => Reference(t)
    case ByMutableReference => MutableReference(t)
    case ByVector => Vector(t)
  }

  /** Wraps `t` in the layers `ls`, outermost first. */
  function Wrap(ls: seq<Indirection>, t: NormalizedType): NormalizedType
    decreases |ls|
  {
    if ls == [] then t else Layer(ls[0], Wrap(ls[1..], t))
  }

  /** Stripping any stack of indirection layers does not change the result. */
  lemma {:induction false} UnwrapThroughIndirection(ls: seq<Indirection>, t: NormalizedType)
    ensures Unwrap(Wrap(ls, t)) == Unwrap(t)
  {
    if ls != [] {
      UnwrapThroughIndirection(ls[1..], t);
    }
  }

  /** One layer of each kind: unwrapping `Reference(t)`, `MutableReference(t)`
      or `Vector(t)` is unwrapping `t`. Definitional: one unfolding of Unwrap,
      and the one-layer instance of UnwrapThroughIndirection. */
  lemma StripOneLayer(t: NormalizedType)
    ensures Unwrap(Reference(t)) == Unwrap(t)
    ensures Unwrap(MutableReference(t)) == Unwrap(t)
    ensures Unwrap(Vector(t)) == Unwrap(t)
  {
  }

  /** Any nesting of indirection layers over `Struct(r)` yields `r`. */
  lemma UnwrapNestedStruct(ls: seq<Indirection>, r: TypeReference)
    ensures Unwrap(Wrap(ls, Struct(r))) == Some(r)
  {
    UnwrapThroughIndirection(ls, Struct(r));
  }

  /** On a base (a type that is not an indirection layer) Unwrap returns the
      struct's reference, and null for everything else. Definitional: one
      unfolding of Unwrap. */
  lemma UnwrapBase(b: NormalizedType)
    requires !IsIndirection(b)
    ensures Unwrap(b) == (if b.Struct? then Some(b.reference) else None)
  {
  }

  /** Every type is a stack of layers over a base. */
  lemma {:induction false} Decompose(t: NormalizedType) returns (ls: seq<Indirection>, b: NormalizedType)
    ensures t == Wrap(ls, b) && !IsIndirection(b)
  {
    match t
    case Reference(inner) =>
      var ls', b' := Decompose(inner);
      ls, b := [ByReference] + ls', b';
      assert ls[1..] == ls';
    case MutableReference(inner) =>
      var ls', b' := Decompose(inner);
      ls, b := [ByMutableReference] + ls', b';
      assert ls[1..] == ls';
    case Vector(inner) =>
      var ls', b' := Decompose(inner);
      ls, b := [ByVector] + ls', b';
      assert ls[1..] == ls';
    case _ =>
      ls, b := [], t;
  }

  /** Unwrap finds `r` exactly when the type is layers over `Struct(r)`, and
      finds nothing exactly when the base under the layers is not a struct. */
  lemma UnwrapCharacterization(t: NormalizedType)
    ensures forall r :: Unwrap(t) == Some(r) <==> exists ls :: t == Wrap(ls, Struct(r))
    ensures Unwrap(t).None? <==>
      exists ls, b :: t == Wrap(ls, b) && !IsIndirection(b) && !b.Struct?
  {
    var ls0, b0 := Decompose(t);
    UnwrapThroughIndirection(ls0, b0);
    forall r
      ensures Unwrap(t) == Some(r) <==> exists ls :: t == Wrap(ls, Struct(r))
    {
      if Unwrap(t) == Some(r) {
        assert t == Wrap(ls0, Struct(r));
      }
      if exists ls :: t == Wrap(ls, Struct(r)) {
        var ls :| t == Wrap(ls, Struct(r));
        UnwrapNestedStruct(ls, r);
      }
    }
    if exists ls, b :: t == Wrap(ls, b) && !IsIndirection(b) && !b.Struct? {
      var ls, b :| t == Wrap(ls, b) && !IsIndirection(b) && !b.Struct?;
      UnwrapThroughIndirection(ls, b);
    }
  }
}
