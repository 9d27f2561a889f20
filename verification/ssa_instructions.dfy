/**
 * The use/def bookkeeping of four SSA instruction records: `instanceof`,
 * array references, reflective member accesses and field accesses. Value
 * numbers are Java `int`s; type and field references are opaque names.
 */
module SsaInstructions {
  import opened Wrappers
  import opened JavaInt

  /** A type reference, by name; its primitiveness is decided by the type system, outside this model. */
  datatype TypeName = TypeName(name: string, isPrimitive: bool)

  /** A field reference: its name and the type it holds. */
  datatype FieldRef = FieldRef(name: string, fieldType: TypeName)

  // ---------------------------------------------------------------- instanceof

  /** `result = ref instanceof checkedType`. */
  datatype Instanceof = Instanceof(result: Int32, ref: Int32, checkedType: TypeName)

  /** The values an `instanceof` defines: just `result`. */
  function InstanceofDefs(i: Instanceof): seq<Int32> {
    [i.result]
  }

  /** The values an `instanceof` uses: just `ref`. */
  function InstanceofUses(i: Instanceof): seq<Int32> {
    [i.ref]
  }

  /**
   * `copyForSSA(defs, uses)`: the same instruction over new value numbers.
   * A null or empty `defs` keeps the old result; a null `uses` keeps the old
   * ref; an empty, non-null `uses` is indexed anyway and fails.
   */
  function CopyForSSA(i: Instanceof, defs: Option<seq<Int32>>, uses: Option<seq<Int32>>)
    : (r: Result<Instanceof, JavaException>)
    ensures r.Failure? <==> uses.Some? && |uses.value| == 0
    ensures r.Failure? ==> r.error == ArrayIndexOutOfBoundsException
    ensures r.Success? ==> r.value.checkedType == i.checkedType
    ensures r.Success? ==> InstanceofDefs(r.value)
                           == (if defs.None? || |defs.value| == 0 then InstanceofDefs(i) else defs.value[..1])
    ensures r.Success? ==> InstanceofUses(r.value) == (if uses.None? then InstanceofUses(i) else uses.value[..1])
  {
    if uses.Some? && |uses.value| == 0 then Failure(ArrayIndexOutOfBoundsException)
    else
      var result := if defs.None? || |defs.value| == 0 then i.result else defs.value[0];
      var ref := if uses.None? then i.ref else uses.value[0];
      Success(Instanceof(result, ref, i.checkedType))
  }

  /** Copying with the instruction's own defs and uses, or with neither, gives it back. */
  lemma CopyForSSARoundTrip(i: Instanceof)
    ensures CopyForSSA(i, Some(InstanceofDefs(i)), Some(InstanceofUses(i))) == Success(i)
    ensures CopyForSSA(i, None, None) == Success(i)
  {
  }

  /** Copying twice with the same arrays is copying once. */
  lemma CopyForSSAIdempotent(i: Instanceof, defs: Option<seq<Int32>>, uses: Option<seq<Int32>>)
    requires CopyForSSA(i, defs, uses).Success?
    ensures CopyForSSA(CopyForSSA(i, defs, uses).value, defs, uses) == CopyForSSA(i, defs, uses)
  {
  }

  /** `hasDef`: an `instanceof` always defines its result. */
  function InstanceofHasDef(i: Instanceof): (r: bool)
    ensures r <==> |InstanceofDefs(i)| > 0
  {
    true
  }

  /** `getNumberOfDefs` and `getNumberOfUses`: one each. */
  function InstanceofDefCount(i: Instanceof): (n: nat)
    ensures n == |InstanceofDefs(i)| == 1
  {
    1
  }

  function InstanceofUseCount(i: Instanceof): (n: nat)
    ensures n == |InstanceofUses(i)| == 1
  {
    1
  }

  /** `getDef(i)`, which asserts `i == 0`. */
  function InstanceofGetDef(ins: Instanceof, i: int): (r: Int32)
    requires i == 0
    ensures r == InstanceofDefs(ins)[i]
  {
    ins.result
  }

  /**
   * `getUse(j)`: the single use. The check `j == 0` is made only when
   * assertions are enabled; without it every `j` yields that use.
   */
  function InstanceofGetUse(ins: Instanceof, j: int): (r: Int32)
    ensures r == InstanceofUses(ins)[0]
  {
    ins.ref
  }

  /** `hashCode`: `ref * 677 ^ result * 3803` in 32-bit arithmetic. */
  function InstanceofHash(i: Instanceof): (h: Int32)
    ensures h == Xor(Wrap(677 * i.ref), Wrap(3803 * i.result))
  {
    Xor(Wrap(677 * i.ref), Wrap(3803 * i.result))
  }

  /** Two `instanceof`s with the same result and different refs have different hash codes. */
  lemma InstanceofHashSeparatesRefs(i1: Instanceof, i2: Instanceof)
    requires i1.result == i2.result && InstanceofHash(i1) == InstanceofHash(i2)
    ensures i1.ref == i2.ref
  {
    MulXorInjective(677, 1579685165, 249, i1.ref, i2.ref, Wrap(3803 * i1.result));
  }

  /** Two `instanceof`s with the same ref and different results have different hash codes. */
  lemma InstanceofHashSeparatesResults(i1: Instanceof, i2: Instanceof)
    requires i1.ref == i2.ref && InstanceofHash(i1) == InstanceofHash(i2)
    ensures i1.result == i2.result
  {
    XorMulInjective(3803, 3315809619, 2936, Wrap(677 * i1.ref), i1.result, i2.result);
  }

  // ---------------------------------------------------------- array reference

  /** An array load or store: the array, the index, and the element type. */
  datatype ArrayReference = ArrayReference(arrayref: Int32, index: Int32, declaredType: TypeName)

  /** The values an array reference uses, in `getUse` order. */
  function ArrayReferenceUses(a: ArrayReference): seq<Int32> {
    [a.arrayref, a.index]
  }

  /** `getNumberOfUses`: always two. */
  function ArrayReferenceUseCount(a: ArrayReference): (n: nat)
    ensures n == |ArrayReferenceUses(a)| == 2
  {
    2
  }

  /**
   * `getUse(j)`: the array for 0 and the index for 1. The check `j <= 1` is
   * made only when assertions are enabled; without it every `j` other than 0
   * yields the index.
   */
  function ArrayReferenceGetUse(a: ArrayReference, j: int): (r: Int32)
    ensures 0 <= j < ArrayReferenceUseCount(a) ==> r == ArrayReferenceUses(a)[j]
    ensures j != 0 ==> r == a.index
  {
    if j == 0 then a.arrayref else a.index
  }

  /** `typeIsPrimitive`: the element type is primitive. */
  function TypeIsPrimitive(a: ArrayReference): (r: bool)
    ensures r <==> a.declaredType.isPrimitive
  {
    a.declaredType.isPrimitive
  }

  /**
   * What the constructor is given comes back: `getUse(0)` is the array,
   * `getUse(1)` the index, and `typeIsPrimitive` asks the given element type.
   */
  lemma ArrayReferenceGettersRoundTrip(arrayref: Int32, index: Int32, declaredType: TypeName)
    ensures var a := ArrayReference(arrayref, index, declaredType);
            && ArrayReferenceGetUse(a, 0) == arrayref && ArrayReferenceGetUse(a, 1) == index
            && (TypeIsPrimitive(a) <==> declaredType.isPrimitive)
  {
  }

  // -------------------------------------------------- reflective member access

  /** A reflective access of member `memberRef` on object `objectRef`. */
  datatype ReflectiveMemberAccess = ReflectiveMemberAccess(objectRef: Int32, memberRef: Int32)

  /** The values a reflective access uses, in `getUse` order. */
  function ReflectiveUses(m: ReflectiveMemberAccess): seq<Int32> {
    [m.objectRef, m.memberRef]
  }

  /**
   * `getUse(j)`: the object for 0 and the member for 1. The check `j <= 1` is
   * made only when assertions are enabled; without it every `j` other than 0
   * yields the member.
   */
  function ReflectiveGetUse(m: ReflectiveMemberAccess, j: int): (r: Int32)
    ensures 0 <= j < |ReflectiveUses(m)| ==> r == ReflectiveUses(m)[j]
    ensures j != 0 ==> r == m.memberRef
  {
    if j == 0 then m.objectRef else m.memberRef
  }

  /** `hashCode`: `6311 * memberRef ^ 2371 * objectRef` in 32-bit arithmetic. */
  function ReflectiveHash(m: ReflectiveMemberAccess): (h: Int32)
    ensures h == Xor(Wrap(6311 * m.memberRef), Wrap(2371 * m.objectRef))
  {
    Xor(Wrap(6311 * m.memberRef), Wrap(2371 * m.objectRef))
  }

  /** With the object fixed, different members give different hash codes. */
  lemma ReflectiveHashSeparatesMembers(m1: ReflectiveMemberAccess, m2: ReflectiveMemberAccess)
    requires m1.objectRef == m2.objectRef && ReflectiveHash(m1) == ReflectiveHash(m2)
    ensures m1.memberRef == m2.memberRef
  {
    MulXorInjective(6311, 311693079, 458, m1.memberRef, m2.memberRef, Wrap(2371 * m1.objectRef));
  }

  /** With the member fixed, different objects give different hash codes. */
  lemma ReflectiveHashSeparatesObjects(m1: ReflectiveMemberAccess, m2: ReflectiveMemberAccess)
    requires m1.memberRef == m2.memberRef && ReflectiveHash(m1) == ReflectiveHash(m2)
    ensures m1.objectRef == m2.objectRef
  {
    XorMulInjective(2371, 4169976683, 2302, Wrap(6311 * m1.memberRef), m1.objectRef, m2.objectRef);
  }

  // -------------------------------------------------------------- field access

  /** A field read or write: the field, and the object (`-1` for a static field). */
  datatype FieldAccess = FieldAccess(field: FieldRef, ref: Int32)

  /** The constructor: a null field is rejected. */
  function MakeFieldAccess(field: Option<FieldRef>, ref: Int32): (r: Result<FieldAccess, JavaException>)
    ensures r.Failure? <==> field.None?
    ensures r.Failure? ==> r.error == IllegalArgumentException("field cannot be null")
    ensures r.Success? ==> r.value.field == field.value && r.value.ref == ref
  {
    if field.None? then Failure(IllegalArgumentException("field cannot be null"))
    else Success(FieldAccess(field.value, ref))
  }

  /** `isStatic`: the access has no object, which the value number -1 marks. */
  function IsStatic(f: FieldAccess): (r: bool)
    ensures r <==> f.ref == -1
  {
    f.ref == -1
  }

  /** `getDeclaredFieldType`: the type the field holds. */
  function DeclaredFieldType(f: FieldAccess): (r: TypeName)
    ensures r == f.field.fieldType
  {
    f.field.fieldType
  }

  /** Whatever is passed to the constructor comes back from the getters. */
  lemma FieldAccessGettersRoundTrip(field: FieldRef, ref: Int32)
    ensures var f := MakeFieldAccess(Some(field), ref).value;
            f.field == field && f.ref == ref && DeclaredFieldType(f) == field.fieldType
            && (IsStatic(f) <==> ref == -1)
  {
  }

  // ------------------------------------------------------------ control flow

  /** The control-flow flags the four records fix: which may raise, which fall through. */
  datatype Flags = Flags(isPEI: bool, isFallThrough: bool)

  /** The kinds of instruction whose flags the records fix. */
  datatype Kind = InstanceofKind | ArrayReferenceKind | ReflectiveKind | FieldAccessKind

  /**
   * `isPEI` and `isFallThrough` where the records override them: array and
   * field accesses may raise, and `instanceof`, array references and
   * reflective accesses fall through. Overrides the records do not make are
   * inherited from `SSAInstruction`, which is not part of this model.
   */
  function Overrides(k: Kind): (r: (Option<bool>, Option<bool>))
    ensures r.0 == Some(true) <==> k == ArrayReferenceKind || k == FieldAccessKind
    ensures r.1 == Some(true) <==> k != FieldAccessKind
  {
    match k
    case InstanceofKind => (None, Some(true))
    case ArrayReferenceKind => (Some(true), Some(true))
    case ReflectiveKind => (None, Some(true))
    case FieldAccessKind => (Some(true), None)
  }
}
