/**
 * `ArgumentTypeEntrypoint`: for each parameter of an entry method, the
 * concrete type the call graph builder should allocate, chosen from the class
 * hierarchy. The hierarchy is an input: which types are primitive, the class
 * a type resolves to, and the implementors and subclasses of a class in the
 * order the hierarchy yields them.
 */
module ArgumentTypeEntrypoint {
  import opened Wrappers

  /** A type reference: a named type, or an array of an element type. */
  datatype TypeRef = Named(name: string) | ArrayOf(element: TypeRef)

  /** The shape of an array class: its innermost element class (if known) and its dimensionality. */
  datatype ArrayShape = ArrayShape(innermost: Option<ClassInfo>, dimensionality: int)

  /** What the hierarchy knows about a class. `arrayShape` is present for array classes. */
  datatype ClassInfo = ClassInfo(ref: TypeRef, isAbstract: bool, isInterface: bool, arrayShape: Option<ArrayShape>)

  /** The class hierarchy, as far as the parameter rule consults it. */
  datatype Hierarchy = Hierarchy(
    isPrimitive: TypeRef -> bool,
    lookupClass: TypeRef -> Option<ClassInfo>,
    implementors: TypeRef -> seq<ClassInfo>,
    subclasses: TypeRef -> seq<ClassInfo>)

  /** `t` wrapped in `n` array levels. */
  function Nest(t: TypeRef, n: nat): TypeRef {
    if n == 0 then t else ArrayOf(Nest(t, n - 1))
  }

  /** The number of array levels around a type's innermost element. */
  function Dims(t: TypeRef): nat {
    if t.ArrayOf? then 1 + Dims(t.element) else 0
  }

  /** The innermost element of a type. */
  function Innermost(t: TypeRef): TypeRef {
    if t.ArrayOf? then Innermost(t.element) else t
  }

  /** Nesting adds exactly its levels and keeps the innermost element. */
  lemma {:induction false} NestShape(t: TypeRef, n: nat)
    ensures Dims(Nest(t, n)) == Dims(t) + n
    ensures Innermost(Nest(t, n)) == Innermost(t)
  {
    if n > 0 {
      NestShape(t, n - 1);
    }
  }

  /** A type is recovered from its innermost element and its dimensionality. */
  lemma {:induction false} NestOfShape(t: TypeRef)
    ensures Nest(Innermost(t), Dims(t)) == t
  {
    if t.ArrayOf? {
      NestOfShape(t.element);
      NestPeel(Innermost(t.element), Dims(t.element));
    }
  }

  lemma {:induction false} NestPeel(t: TypeRef, n: nat)
    ensures Nest(t, n + 1) == ArrayOf(Nest(t, n))
  {
  }

  /** `chooseAnImplementor`: the first implementor the hierarchy yields, or null. */
  function ChooseAnImplementor(h: Hierarchy, iface: ClassInfo): (r: Option<TypeRef>)
    ensures r.Some? <==> |h.implementors(iface.ref)| > 0
    ensures r.Some? ==> r.value == h.implementors(iface.ref)[0].ref
  {
    var impls := h.implementors(iface.ref);
    if |impls| > 0 then Some(impls[0].ref) else None
  }

  /** The first class of `cs` that is not abstract, or null. */
  function FirstConcrete(cs: seq<ClassInfo>): (r: Option<TypeRef>)
    ensures r.None? <==> forall i | 0 <= i < |cs| :: cs[i].isAbstract
    ensures r.Some? ==> exists i | 0 <= i < |cs| ::
              && !cs[i].isAbstract && r.value == cs[i].ref
              && forall j | 0 <= j < i :: cs[j].isAbstract
  {
    if |cs| == 0 then None
    else if !cs[0].isAbstract then Some(cs[0].ref)
    else
      var rest := FirstConcrete(cs[1..]);
      if rest.Some? then
        var i :| 0 <= i < |cs[1..]| && !cs[1..][i].isAbstract && rest.value == cs[1..][i].ref
                 && forall j | 0 <= j < i :: cs[1..][j].isAbstract;
        assert cs[i + 1] == cs[1..][i];
        rest
      else
        rest
  }

  /** `chooseAConcreteSubClass`: the first non-abstract subclass the hierarchy yields, or null. */
  function ChooseAConcreteSubClass(h: Hierarchy, klass: ClassInfo): (r: Option<TypeRef>)
    ensures r.None? <==> forall i | 0 <= i < |h.subclasses(klass.ref)| :: h.subclasses(klass.ref)[i].isAbstract
  {
    FirstConcrete(h.subclasses(klass.ref))
  }

  /**
   * The array type built for an interface array: the implementor wrapped once,
   * then once more for each dimension after the first.
   */
  method ArrayOfImplementor(impl: TypeRef, dimensionality: int) returns (t: TypeRef)
    ensures t == ArrayTypeFor(impl, dimensionality)
    ensures Innermost(t) == Innermost(impl)
    ensures Dims(t) == Dims(impl) + (if dimensionality > 1 then dimensionality else 1)
  {
    t := ArrayOf(impl);
    NestShape(impl, 1);
    var dim := 1;
    while dim < dimensionality
      invariant 1 <= dim && (dim <= dimensionality || dim == 1)
      invariant t == Nest(impl, dim)
    {
      t := ArrayOf(t);
      dim := dim + 1;
    }
    NestShape(impl, dim);
  }

  /** The same construction as a function, for use in the rule below. */
  function ArrayTypeFor(impl: TypeRef, dimensionality: int): (t: TypeRef)
    ensures Innermost(t) == Innermost(impl)
    ensures Dims(t) == Dims(impl) + (if dimensionality > 1 then dimensionality else 1)
  {
    var n := if dimensionality > 1 then dimensionality else 1;
    NestShape(impl, n);
    Nest(impl, n)
  }

  /** An array class whose innermost element class is an interface. */
  predicate IsInterfaceArray(k: ClassInfo) {
    && k.arrayShape.Some? && k.arrayShape.value.innermost.Some? && k.arrayShape.value.innermost.value.isInterface
  }

  /** Whether the `i`-th class of `cs` is the first that is not abstract. */
  predicate IsFirstConcreteAt(cs: seq<ClassInfo>, i: int) {
    && 0 <= i < |cs| && !cs[i].isAbstract
    && forall j | 0 <= j < i :: cs[j].isAbstract
  }

  /**
   * The type chosen for one parameter type `t`, or null: primitives are kept;
   * an unresolvable type gives null; an abstract class gives its first
   * concrete subclass; an interface its first implementor; an array of
   * interfaces an array of the first implementor with the same
   * dimensionality; anything else is kept. The abstract test comes first, so
   * an abstract interface is treated as an abstract class. A type is fixed by
   * its innermost element and its dimensionality (`NestOfShape`), so the
   * array case is stated through those two.
   */
  function ParameterType(h: Hierarchy, t: TypeRef): (r: Option<TypeRef>)
    ensures h.isPrimitive(t) ==> r == Some(t)
    ensures !h.isPrimitive(t) && h.lookupClass(t).None? ==> r.None?
    ensures !h.isPrimitive(t) && h.lookupClass(t).Some? && h.lookupClass(t).value.isAbstract ==>
              var subs := h.subclasses(h.lookupClass(t).value.ref);
              && (r.None? <==> forall i | 0 <= i < |subs| :: subs[i].isAbstract)
              && (r.Some? ==> exists i :: IsFirstConcreteAt(subs, i) && r.value == subs[i].ref)
    ensures !h.isPrimitive(t) && h.lookupClass(t).Some? && !h.lookupClass(t).value.isAbstract
            && h.lookupClass(t).value.isInterface ==>
              var impls := h.implementors(h.lookupClass(t).value.ref);
              && (r.None? <==> |impls| == 0)
              && (r.Some? ==> r.value == impls[0].ref)
    ensures !h.isPrimitive(t) && h.lookupClass(t).Some? && !h.lookupClass(t).value.isAbstract
            && !h.lookupClass(t).value.isInterface && IsInterfaceArray(h.lookupClass(t).value) ==>
              var shape := h.lookupClass(t).value.arrayShape.value;
              var impls := h.implementors(shape.innermost.value.ref);
              && (r.None? <==> |impls| == 0)
              && (r.Some? ==> Innermost(r.value) == Innermost(impls[0].ref)
                              && Dims(r.value) == Dims(impls[0].ref) + (if shape.dimensionality > 1 then shape.dimensionality else 1))
    ensures !h.isPrimitive(t) && h.lookupClass(t).Some? && !h.lookupClass(t).value.isAbstract
            && !h.lookupClass(t).value.isInterface && !IsInterfaceArray(h.lookupClass(t).value) ==>
              r == Some(t)
  {
    if h.isPrimitive(t) then Some(t)
    else match h.lookupClass(t)
      case None => None
      case Some(k) =>
        if k.isAbstract then
          var r := ChooseAConcreteSubClass(h, k);
          if r.Some? then
            var subs := h.subclasses(k.ref);
            var i :| 0 <= i < |subs| && !subs[i].isAbstract && r.value == subs[i].ref
                     && forall j | 0 <= j < i :: subs[j].isAbstract;
            assert IsFirstConcreteAt(subs, i);
            r
          else r
        else if k.isInterface then ChooseAnImplementor(h, k)
        else if IsInterfaceArray(k) then
          match ChooseAnImplementor(h, k.arrayShape.value.innermost.value)
          case None => None
          case Some(impl) => Some(ArrayTypeFor(impl, k.arrayShape.value.dimensionality))
        else Some(t)
  }

  /**
   * No type is available for `t`: it cannot be resolved, or it is an abstract
   * class whose subclasses are all abstract, or an interface without
   * implementors, or an array of an interface without implementors.
   */
  predicate NoCandidate(h: Hierarchy, t: TypeRef) {
    && !h.isPrimitive(t)
    && match h.lookupClass(t)
       case None => true
       case Some(k) =>
         if k.isAbstract then forall c | c in h.subclasses(k.ref) :: c.isAbstract
         else if k.isInterface then h.implementors(k.ref) == []
         else IsInterfaceArray(k) && h.implementors(k.arrayShape.value.innermost.value.ref) == []
  }

  /** The rule gives null exactly when no candidate is available. */
  lemma ParameterTypeNullIffNoCandidate(h: Hierarchy, t: TypeRef)
    ensures ParameterType(h, t).None? <==> NoCandidate(h, t)
  {
  }

  /**
   * Every type the rule chooses comes from the hierarchy, and which one
   * depends on the case: the parameter type itself for a primitive or a
   * concrete class, a non-abstract subclass for an abstract class, an
   * implementor for an interface, and an array of an implementor of the
   * innermost interface, with at least one more dimension, for an interface
   * array.
   */
  lemma ParameterTypeChosenFromHierarchy(h: Hierarchy, t: TypeRef)
    requires ParameterType(h, t).Some?
    ensures var r := ParameterType(h, t).value;
            || (h.isPrimitive(t) && r == t)
            || (!h.isPrimitive(t) && h.lookupClass(t).value.isAbstract
                && exists c | c in h.subclasses(h.lookupClass(t).value.ref) :: !c.isAbstract && c.ref == r)
            || (!h.isPrimitive(t) && !h.lookupClass(t).value.isAbstract && h.lookupClass(t).value.isInterface
                && exists c | c in h.implementors(h.lookupClass(t).value.ref) :: c.ref == r)
            || (!h.isPrimitive(t) && !h.lookupClass(t).value.isAbstract && !h.lookupClass(t).value.isInterface
                && IsInterfaceArray(h.lookupClass(t).value)
                && exists c | c in h.implementors(h.lookupClass(t).value.arrayShape.value.innermost.value.ref) ::
                     Innermost(r) == Innermost(c.ref) && Dims(r) > Dims(c.ref))
            || (!h.isPrimitive(t) && !h.lookupClass(t).value.isAbstract && !h.lookupClass(t).value.isInterface
                && !IsInterfaceArray(h.lookupClass(t).value) && r == t)
  {
  }

  /** The abstract test precedes the interface test: an abstract interface gets a concrete subclass. */
  lemma AbstractBeforeInterface(h: Hierarchy, t: TypeRef, k: ClassInfo)
    requires !h.isPrimitive(t) && h.lookupClass(t) == Some(k) && k.isAbstract && k.isInterface
    ensures ParameterType(h, t) == FirstConcrete(h.subclasses(k.ref))
  {
  }

  /**
   * An array of an interface with an implementor becomes an array of the first
   * implementor with the same dimensionality (at least one).
   */
  lemma InterfaceArrayKeepsDimensionality(h: Hierarchy, t: TypeRef, k: ClassInfo)
    requires !h.isPrimitive(t) && h.lookupClass(t) == Some(k) && !k.isAbstract && !k.isInterface
    requires IsInterfaceArray(k) && |h.implementors(k.arrayShape.value.innermost.value.ref)| > 0
    ensures var impl := h.implementors(k.arrayShape.value.innermost.value.ref)[0].ref;
            var d := k.arrayShape.value.dimensionality;
            && ParameterType(h, t).Some?
            && Innermost(ParameterType(h, t).value) == Innermost(impl)
            && Dims(ParameterType(h, t).value) == Dims(impl) + (if d > 1 then d else 1)
  {
  }

  /** A parameter's entry: empty for null, else the one chosen type. */
  function Entry(r: Option<TypeRef>): (e: seq<TypeRef>)
    ensures |e| <= 1
    ensures r.None? <==> |e| == 0
    ensures r.Some? ==> e[0] == r.value
  {
    if r.None? then [] else [r.value]
  }

  /**
   * `makeParameterTypes`: one entry per parameter of the method, each empty
   * or a singleton holding the type the rule chose.
   */
  method MakeParameterTypes(h: Hierarchy, params: seq<TypeRef>) returns (result: seq<seq<TypeRef>>)
    ensures |result| == |params|
    ensures forall i | 0 <= i < |params| :: |result[i]| <= 1
    ensures forall i | 0 <= i < |params| :: result[i] == Entry(ParameterType(h, params[i]))
    ensures forall i | 0 <= i < |params| :: |result[i]| == 0 <==> NoCandidate(h, params[i])
  {
    result := [];
    var i := 0;
    while i < |params|
      invariant 0 <= i <= |params| && |result| == i
      invariant forall k | 0 <= k < i :: result[k] == Entry(ParameterType(h, params[k]))
      invariant forall k | 0 <= k < i :: |result[k]| == 0 <==> NoCandidate(h, params[k])
    {
      ParameterTypeNullIffNoCandidate(h, params[i]);
      result := result + [Entry(ParameterType(h, params[i]))];
      i := i + 1;
    }
  }

  /** The entrypoint: the per-parameter type choices. */
  datatype Entrypoint = Entrypoint(paramTypes: seq<seq<TypeRef>>)

  /** The constructor: computes the choices once. */
  method MakeEntrypoint(h: Hierarchy, params: seq<TypeRef>) returns (e: Entrypoint)
    ensures NumberOfParameters(e) == |params|
    ensures forall i | 0 <= i < |params| :: GetParameterTypes(e, i) == Success(Entry(ParameterType(h, params[i])))
  {
    var types := MakeParameterTypes(h, params);
    e := Entrypoint(types);
  }

  /** `getNumberOfParameters`: the number of entries. */
  function NumberOfParameters(e: Entrypoint): (n: nat)
    ensures n == |e.paramTypes|
  {
    |e.paramTypes|
  }

  /** `getParameterTypes(i)`: entry `i`, or an out-of-bounds failure. */
  function GetParameterTypes(e: Entrypoint, i: int): (r: Result<seq<TypeRef>, JavaException>)
    ensures r.Failure? <==> !(0 <= i < NumberOfParameters(e))
    ensures r.Failure? ==> r.error == ArrayIndexOutOfBoundsException
    ensures r.Success? ==> r.value == e.paramTypes[i]
  {
    if 0 <= i < |e.paramTypes| then Success(e.paramTypes[i]) else Failure(ArrayIndexOutOfBoundsException)
  }
}
