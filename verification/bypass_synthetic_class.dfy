/**
 * `BypassSyntheticClass`: a synthetic stand-in for a real class (a subclass
 * of it, or an implementor when it is an interface), named after it and
 * answering the hierarchy questions on its behalf. The real class is
 * abstracted to what these answers consult; the loader is reduced to its
 * answer for `java.lang.Object`.
 */
module BypassSyntheticClass {
  import opened Wrappers
  import opened JavaInt

  /** A real class as the synthetic class sees it; `id` stands for its identity. */
  datatype RealClass = RealClass(
    id: nat,
    isInterface: bool,
    hash: Int32,
    ancestorInterfaces: set<nat>,
    implementedInterfaces: set<nat>)

  /**
   * A synthetic class: the real type it stands for and, from its loader, the
   * class `java.lang.Object` resolves to (absent when the loader cannot find it).
   */
  datatype Bypass = Bypass(realType: RealClass, objectClass: Option<RealClass>)

  /** Any object `equals` may be handed. */
  datatype Obj = Null | BypassObj(b: Bypass) | OtherObj

  /**
   * `getName(T)`: the synthetic name of a type name `"L..."` is `"L$..."`. A
   * null type is rejected, and the empty name has no first character to drop.
   */
  function GetName(t: Option<string>): (r: Result<string, JavaException>)
    ensures t.None? ==> r == Failure(IllegalArgumentException("T is null"))
    ensures t.Some? && |t.value| == 0 ==> r == Failure(StringIndexOutOfBoundsException)
    ensures t.Some? && |t.value| > 0 ==>
              && r.Success? && |r.value| == |t.value| + 1
              && r.value[..2] == "L$" && r.value[2..] == t.value[1..]
  {
    if t.None? then Failure(IllegalArgumentException("T is null"))
    else if |t.value| == 0 then Failure(StringIndexOutOfBoundsException)
    else Success("L$" + t.value[1..])
  }

  /** The original class name is recovered from the synthetic one when it starts with `L`. */
  lemma GetNameInverse(name: string)
    requires |name| > 0 && name[0] == 'L'
    ensures var r := GetName(Some(name)).value;
            "L" + r[2..] == name
  {
  }

  /** Two names get the same synthetic name exactly when they agree after the first character. */
  lemma GetNameCollides(n1: string, n2: string)
    requires |n1| > 0 && |n2| > 0
    ensures GetName(Some(n1)) == GetName(Some(n2)) <==> n1[1..] == n2[1..]
  {
  }

  /**
   * `getSuperclass`: a stand-in for an interface extends `java.lang.Object`,
   * and fails when the loader cannot find it; any other stand-in extends the
   * real class.
   */
  function GetSuperclass(b: Bypass): (r: Result<RealClass, JavaException>)
    ensures r.Failure? <==> b.realType.isInterface && b.objectClass.None?
    ensures r.Failure? ==> r.error == ClassHierarchyException("could not find java.lang.Object")
    ensures r.Success? && b.realType.isInterface ==> Some(r.value) == b.objectClass
    ensures r.Success? && !b.realType.isInterface ==> r.value == b.realType
  {
    if b.realType.isInterface then
      if b.objectClass.Some? then Success(b.objectClass.value)
      else Failure(ClassHierarchyException("could not find java.lang.Object"))
    else Success(b.realType)
  }

  /**
   * `getAllImplementedInterfaces`: a stand-in for an interface implements the
   * interface and all its ancestors; any other stand-in implements what the
   * real class implements.
   */
  function GetAllImplementedInterfaces(b: Bypass): (r: set<nat>)
    ensures b.realType.isInterface ==> forall i :: i in r <==> i == b.realType.id || i in b.realType.ancestorInterfaces
    ensures !b.realType.isInterface ==> forall i :: i in r <==> i in b.realType.implementedInterfaces
  {
    if b.realType.isInterface then b.realType.ancestorInterfaces + {b.realType.id}
    else b.realType.implementedInterfaces
  }

  /**
   * `getAllAncestorInterfaces`: a copy of the real class's ancestor
   * interfaces. That the real class is an interface is checked only when
   * assertions are enabled; without the check any real class is answered.
   */
  function GetAllAncestorInterfaces(b: Bypass): (r: set<nat>)
    ensures forall i :: i in r <==> i in b.realType.ancestorInterfaces
  {
    b.realType.ancestorInterfaces
  }

  /** An interface's stand-in implements strictly more than its ancestors: itself, when it is not its own ancestor. */
  lemma ImplementedExtendsAncestors(b: Bypass)
    requires b.realType.isInterface && b.realType.id !in b.realType.ancestorInterfaces
    ensures GetAllAncestorInterfaces(b) < GetAllImplementedInterfaces(b)
    ensures GetAllImplementedInterfaces(b) - GetAllAncestorInterfaces(b) == {b.realType.id}
  {
  }

  /**
   * `isSyntheticImplentor`: the stand-in implements an interface rather than
   * extending a class. A synthetic implementor takes its superclass from the
   * loader and counts the interface among its interfaces; a synthetic
   * subclass extends the real class and inherits its interfaces.
   */
  function IsSyntheticImplementor(b: Bypass): (r: bool)
    ensures r <==> b.realType.isInterface
    ensures r ==> b.realType.id in GetAllImplementedInterfaces(b)
    ensures r && GetSuperclass(b).Success? ==> b.objectClass == Some(GetSuperclass(b).value)
    ensures !r ==> GetSuperclass(b) == Success(b.realType)
    ensures !r ==> GetAllImplementedInterfaces(b) == b.realType.implementedInterfaces
  {
    b.realType.isInterface
  }

  /**
   * A stand-in's superclass is never an interface, provided the loader's
   * `java.lang.Object` is a class: an implementor extends `Object` and a
   * subclass extends a class.
   */
  lemma SuperclassIsAClass(b: Bypass)
    requires b.objectClass.Some? ==> !b.objectClass.value.isInterface
    ensures GetSuperclass(b).Success? ==> !GetSuperclass(b).value.isInterface
    ensures GetSuperclass(b).Success? ==> (GetSuperclass(b).value == b.realType <==> !IsSyntheticImplementor(b))
  {
  }

  /** `getClassInitializer`: a stand-in has none. */
  function ClassInitializer(b: Bypass): (r: Option<nat>)
    ensures r.None?
  {
    None
  }

  /**
   * `equals`: false for null and for anything that is not a stand-in; two
   * stand-ins are equal when their real types are.
   */
  function Equals(b: Bypass, other: Obj): (r: bool)
    ensures other.Null? || other.OtherObj? ==> !r
    ensures other.BypassObj? ==> (r <==> other.b.realType == b.realType)
  {
    match other
    case Null => false
    case OtherObj => false
    case BypassObj(o) => b.realType == o.realType
  }

  /** `hashCode`: the real type's hash times 1621, wrapped to 32 bits. */
  function Hash(b: Bypass): (h: Int32)
    ensures (h - 1621 * b.realType.hash) % Modulus == 0
  {
    Wrap(1621 * b.realType.hash)
  }

  /** `equals` is an equivalence on stand-ins. */
  lemma EqualsIsEquivalence(a: Bypass, b: Bypass, c: Bypass)
    ensures Equals(a, BypassObj(a))
    ensures Equals(a, BypassObj(b)) ==> Equals(b, BypassObj(a))
    ensures Equals(a, BypassObj(b)) && Equals(b, BypassObj(c)) ==> Equals(a, BypassObj(c))
  {
  }

  /** Equal stand-ins have equal hash codes. */
  lemma HashConsistentWithEquals(a: Bypass, b: Bypass)
    requires Equals(a, BypassObj(b))
    ensures Hash(a) == Hash(b)
  {
  }

  /** The hash loses nothing of the real type's hash: 1621 is invertible mod 2^32. */
  lemma HashSeparatesRealHashes(a: Bypass, b: Bypass)
    requires Hash(a) == Hash(b)
    ensures a.realType.hash == b.realType.hash
  {
    MulInjective(1621, 2596587261, 980, a.realType.hash, b.realType.hash);
  }
}
