/** `ConstantPoolEditor`: add-or-get operations that intern constants, so that
    asking twice for the same constant returns the same index and leaves the
    pool as it was. */
module ConstantPoolEditors {
  import opened Wrappers
  import opened Constants
  import opened ConstantPools
  import opened ConstantReferences

  /** The pool only grows at its end. */
  predicate Extends(before: seq<Option<Constant>>, after: seq<Option<Constant>>) {
    |before| <= |after| && after[..|before|] == before
  }

  /** No interned constant loses or changes its index. */
  predicate MapExtends(before: map<Constant, int>, after: map<Constant, int>) {
    forall c | c in before :: c in after && after[c] == before[c]
  }

  /** The ref constant of type `t`. */
  function RefOf(t: ConstantType, classIndex: int, nameAndTypeIndex: int): (c: Constant)
    requires t == FIELD_REF || t == METHOD_REF || t == INTERFACE_METHOD_REF
    ensures c.IsRef() && TypeOf(c) == t && c.classIndex == classIndex && c.nameAndTypeIndex == nameAndTypeIndex
  {
    if t == FIELD_REF then FieldrefConstant(classIndex, nameAndTypeIndex)
    else if t == METHOD_REF then MethodrefConstant(classIndex, nameAndTypeIndex)
    else InterfaceMethodrefConstant(classIndex, nameAndTypeIndex)
  }

  /** The ref type a method handle of kind `k` must point to (section 4.4.8 of
      the Java Virtual Machine Specification; a class, not an interface, for
      invoke-static and invoke-special). */
  function RefTypeFor(k: ReferenceKind): (t: ConstantType)
    ensures ReferenceTypeAllowed(k, t)
  {
    match k
    case GET_FIELD => FIELD_REF
    case GET_STATIC => FIELD_REF
    case PUT_FIELD => FIELD_REF
    case PUT_STATIC => FIELD_REF
    case INVOKE_VIRTUAL => METHOD_REF
    case NEW_INVOKE_SPECIAL => METHOD_REF
    case INVOKE_STATIC => METHOD_REF
    case INVOKE_SPECIAL => METHOD_REF
    case INVOKE_INTERFACE => INTERFACE_METHOD_REF
  }

  /** Every constant interned since `before` has one of the given types. */
  predicate AddsOnly(before: map<Constant, int>, after: map<Constant, int>, types: set<ConstantType>) {
    forall c | c in after && c !in before :: TypeOf(c) in types
  }

  lemma ExtendsTransitive(a: seq<Option<Constant>>, b: seq<Option<Constant>>, c: seq<Option<Constant>>)
    requires Extends(a, b) && Extends(b, c)
    ensures Extends(a, c)
  {
    assert c[..|a|] == c[..|b|][..|a|];
  }

  lemma MapExtendsTransitive(a: map<Constant, int>, b: map<Constant, int>, c: map<Constant, int>)
    requires MapExtends(a, b) && MapExtends(b, c)
    ensures MapExtends(a, c)
  {
  }

  class ConstantPoolEditor {
    const pool: ConstantPool

    /** `ConstantPoolEditor.of(classFile)`: an editor on the class file's pool. */
    constructor Of(pool: ConstantPool)
      ensures this.pool == pool
    {
      this.pool := pool;
    }

    // -------------------------------------------------------------------------
    // What is already interned.

    predicate Utf8Interned(s: string)
      reads pool
    {
      Utf8Constant(s) in pool.interned
    }

    predicate ClassInterned(className: string)
      reads pool
    {
      Utf8Interned(className) && ClassConstant(pool.interned[Utf8Constant(className)]) in pool.interned
    }

    function ClassIndex(className: string): int
      reads pool
      requires ClassInterned(className)
    {
      pool.interned[ClassConstant(pool.interned[Utf8Constant(className)])]
    }

    predicate NameAndTypeInterned(name: string, descriptor: string)
      reads pool
    {
      Utf8Interned(name) && Utf8Interned(descriptor) &&
      NameAndTypeConstant(pool.interned[Utf8Constant(name)], pool.interned[Utf8Constant(descriptor)]) in pool.interned
    }

    function NameAndTypeIndex(name: string, descriptor: string): int
      reads pool
      requires NameAndTypeInterned(name, descriptor)
    {
      pool.interned[NameAndTypeConstant(pool.interned[Utf8Constant(name)], pool.interned[Utf8Constant(descriptor)])]
    }

    predicate RefInterned(t: ConstantType, className: string, name: string, descriptor: string)
      reads pool
      requires t == FIELD_REF || t == METHOD_REF || t == INTERFACE_METHOD_REF
    {
      ClassInterned(className) && NameAndTypeInterned(name, descriptor) &&
      RefOf(t, ClassIndex(className), NameAndTypeIndex(name, descriptor)) in pool.interned
    }

    function RefIndex(t: ConstantType, className: string, name: string, descriptor: string): int
      reads pool
      requires t == FIELD_REF || t == METHOD_REF || t == INTERFACE_METHOD_REF
      requires RefInterned(t, className, name, descriptor)
    {
      pool.interned[RefOf(t, ClassIndex(className), NameAndTypeIndex(name, descriptor))]
    }

    // -------------------------------------------------------------------------
    // The operations.

    /** `replaceConstant`: the pool's `set`. */
    method ReplaceConstant(index: int, newConstant: Constant) returns (r: Outcome)
      requires pool.Consistent()
      modifies pool
      ensures r.Pass? <==> (0 <= index < |old(pool.constants)| &&
        (old(pool.constants)[index].None? || TypeOf(old(pool.constants)[index].value) == TypeOf(newConstant)))
      ensures r.Pass? ==> pool.constants == old(pool.constants)[index := Some(newConstant)]
      ensures r.Fail? ==> pool.constants == old(pool.constants) && pool.interned == old(pool.interned)
      ensures r.Pass? && 1 <= index ==> pool.Consistent() && newConstant in pool.interned && pool.interned[newConstant] == index
    {
      r := pool.Set(index, newConstant);
    }

    /** The pattern every add-or-get shares: the interned index if there is
        one, otherwise the index of a newly appended constant. */
    method AddOrGet(constant: Constant) returns (index: int)
      requires pool.Consistent()
      modifies pool
      ensures pool.Consistent() && Extends(old(pool.constants), pool.constants) && MapExtends(old(pool.interned), pool.interned)
      ensures pool.constants == old(pool.constants) ==> pool.interned == old(pool.interned)
      ensures 1 <= index < |pool.constants| && pool.constants[index] == Some(constant)
      ensures constant in pool.interned && pool.interned[constant] == index
      ensures AddsOnly(old(pool.interned), pool.interned, {TypeOf(constant)})
      ensures constant in old(pool.interned) ==>
        index == old(pool.interned[constant]) && pool.constants == old(pool.constants) && pool.interned == old(pool.interned)
      ensures constant !in old(pool.interned) ==>
        index == |old(pool.constants)| &&
        pool.constants == old(pool.constants) + [Some(constant)] + (if PoolSize(constant) > 1 then [None] else [])
    {
      var existing := pool.GetConstantIndex(constant);
      if existing == -1 {
        index := pool.AddConstant(constant);
        assert pool.constants[..|old(pool.constants)|] == old(pool.constants);
      } else {
        index := existing;
      }
    }

    method AddOrGetUtf8(s: string) returns (index: int)
      requires pool.Consistent()
      modifies pool
      ensures pool.Consistent() && Extends(old(pool.constants), pool.constants) && MapExtends(old(pool.interned), pool.interned)
      ensures pool.constants == old(pool.constants) ==> pool.interned == old(pool.interned)
      ensures 1 <= index && GetString(pool.constants, index) == Success(s)
      ensures Utf8Interned(s) && pool.interned[Utf8Constant(s)] == index
      ensures AddsOnly(old(pool.interned), pool.interned, {UTF8})
      ensures pool.constants == old(pool.constants) <==> old(Utf8Interned(s))
    {
      index := AddOrGet(Utf8Constant(s));
    }

    method AddOrGetInteger(value: int) returns (index: int)
      requires pool.Consistent()
      modifies pool
      ensures pool.Consistent() && Extends(old(pool.constants), pool.constants) && MapExtends(old(pool.interned), pool.interned)
      ensures pool.constants == old(pool.constants) ==> pool.interned == old(pool.interned)
      ensures 1 <= index < |pool.constants| && pool.constants[index] == Some(IntegerConstant(value))
      ensures IntegerConstant(value) in pool.interned && pool.interned[IntegerConstant(value)] == index
      ensures IntegerConstant(value) !in old(pool.interned) ==>
        index == |old(pool.constants)| && pool.constants == old(pool.constants) + [Some(IntegerConstant(value))]
      ensures pool.constants == old(pool.constants) <==> IntegerConstant(value) in old(pool.interned)
    {
      index := AddOrGet(IntegerConstant(value));
    }

    /** A long takes two slots, so a new one is followed by an empty slot. */
    method AddOrGetLong(value: int) returns (index: int)
      requires pool.Consistent()
      modifies pool
      ensures pool.Consistent() && Extends(old(pool.constants), pool.constants) && MapExtends(old(pool.interned), pool.interned)
      ensures pool.constants == old(pool.constants) ==> pool.interned == old(pool.interned)
      ensures 1 <= index < |pool.constants| && pool.constants[index] == Some(LongConstant(value))
      ensures LongConstant(value) in pool.interned && pool.interned[LongConstant(value)] == index
      ensures LongConstant(value) !in old(pool.interned) ==>
        index == |old(pool.constants)| && |pool.constants| == index + 2 && pool.constants[index + 1] == None
      ensures pool.constants == old(pool.constants) <==> LongConstant(value) in old(pool.interned)
    {
      index := AddOrGet(LongConstant(value));
    }

    method AddOrGetClass(className: string) returns (index: int)
      requires pool.Consistent()
      modifies pool
      ensures pool.Consistent() && Extends(old(pool.constants), pool.constants) && MapExtends(old(pool.interned), pool.interned)
      ensures pool.constants == old(pool.constants) ==> pool.interned == old(pool.interned)
      ensures 1 <= index && GetClassName(pool.constants, index) == Success(className)
      ensures ClassInterned(className) && ClassIndex(className) == index
      ensures pool.constants == old(pool.constants) <==> old(ClassInterned(className))
    {
      var nameIndex := AddOrGetUtf8(className);
      ghost var afterName := pool.constants;
      index := AddOrGet(ClassConstant(nameIndex));
      assert pool.constants[nameIndex] == afterName[nameIndex];
    }

    method AddOrGetNameAndType(name: string, descriptor: string) returns (index: int)
      requires pool.Consistent()
      modifies pool
      ensures pool.Consistent() && Extends(old(pool.constants), pool.constants) && MapExtends(old(pool.interned), pool.interned)
      ensures pool.constants == old(pool.constants) ==> pool.interned == old(pool.interned)
      ensures 1 <= index < |pool.constants| && pool.constants[index].Some? && pool.constants[index].value.NameAndTypeConstant?
      ensures GetString(pool.constants, pool.constants[index].value.nameIndex) == Success(name)
      ensures GetString(pool.constants, pool.constants[index].value.descriptorIndex) == Success(descriptor)
      ensures NameAndTypeConstantOf(pool.constants[index].value.nameIndex, pool.constants[index].value.descriptorIndex).Success?
      ensures NameAndTypeInterned(name, descriptor) && NameAndTypeIndex(name, descriptor) == index
      ensures AddsOnly(old(pool.interned), pool.interned, {UTF8, NAME_AND_TYPE})
      ensures pool.constants == old(pool.constants) <==> old(NameAndTypeInterned(name, descriptor))
    {
      var nameIndex := AddOrGetUtf8(name);
      ghost var afterName := pool.constants;
      var descriptorIndex := AddOrGetUtf8(descriptor);
      ghost var afterDescriptor := pool.constants;
      index := AddOrGet(NameAndTypeConstant(nameIndex, descriptorIndex));
      assert pool.constants[nameIndex] == afterDescriptor[nameIndex] == afterName[nameIndex];
      assert pool.constants[descriptorIndex] == afterDescriptor[descriptorIndex];
    }

    /** `addOrGetFieldRefConstantIndex`, `addOrGetMethodRefConstantIndex` and
        `addOrGetInterfaceMethodRefConstantIndex`. */
    method AddOrGetRef(t: ConstantType, className: string, name: string, descriptor: string) returns (index: int)
      requires t == FIELD_REF || t == METHOD_REF || t == INTERFACE_METHOD_REF
      requires pool.Consistent()
      modifies pool
      ensures pool.Consistent() && Extends(old(pool.constants), pool.constants) && MapExtends(old(pool.interned), pool.interned)
      ensures pool.constants == old(pool.constants) ==> pool.interned == old(pool.interned)
      ensures 1 <= index < |pool.constants| && pool.constants[index].Some?
      ensures pool.constants[index].value.IsRef() && TypeOf(pool.constants[index].value) == t
      ensures GetClassName(pool.constants, pool.constants[index].value.classIndex) == Success(className)
      ensures MemberName(pool.constants, pool.constants[index].value) == Success(name)
      ensures MemberDescriptor(pool.constants, pool.constants[index].value) == Success(descriptor)
      ensures RefInterned(t, className, name, descriptor) && RefIndex(t, className, name, descriptor) == index
      ensures pool.constants == old(pool.constants) <==> old(RefInterned(t, className, name, descriptor))
    {
      var classIndex := AddOrGetClass(className);
      ghost var afterClass := pool.constants;
      var nameAndTypeIndex := AddOrGetNameAndType(name, descriptor);
      ghost var afterNameAndType := pool.constants;
      ghost var nt := afterNameAndType[nameAndTypeIndex].value;
      index := AddOrGet(RefOf(t, classIndex, nameAndTypeIndex));
      assert pool.constants[nameAndTypeIndex] == afterNameAndType[nameAndTypeIndex];
      assert pool.constants[nt.nameIndex] == afterNameAndType[nt.nameIndex];
      assert pool.constants[nt.descriptorIndex] == afterNameAndType[nt.descriptorIndex];
      ghost var cc := afterClass[classIndex].value;
      assert pool.constants[classIndex] == afterNameAndType[classIndex] == afterClass[classIndex];
      assert pool.constants[cc.classNameIndex] == afterNameAndType[cc.classNameIndex] == afterClass[cc.classNameIndex];
    }

    method AddOrGetMethodType(descriptor: string) returns (index: int)
      requires pool.Consistent()
      modifies pool
      ensures pool.Consistent() && Extends(old(pool.constants), pool.constants) && MapExtends(old(pool.interned), pool.interned)
      ensures pool.constants == old(pool.constants) ==> pool.interned == old(pool.interned)
      ensures 1 <= index < |pool.constants| && pool.constants[index].Some? && pool.constants[index].value.MethodTypeConstant?
      ensures GetString(pool.constants, pool.constants[index].value.descriptorIndex) == Success(descriptor)
      ensures Utf8Interned(descriptor) && MethodTypeConstant(pool.interned[Utf8Constant(descriptor)]) in pool.interned
      ensures pool.interned[MethodTypeConstant(pool.interned[Utf8Constant(descriptor)])] == index
      ensures pool.constants == old(pool.constants) <==>
        old(Utf8Interned(descriptor) && MethodTypeConstant(pool.interned[Utf8Constant(descriptor)]) in pool.interned)
    {
      var descriptorIndex := AddOrGetUtf8(descriptor);
      ghost var afterDescriptor := pool.constants;
      index := AddOrGet(MethodTypeConstant(descriptorIndex));
      assert pool.constants[descriptorIndex] == afterDescriptor[descriptorIndex];
    }

    /** `addOrGetInvokeDynamicConstantIndex`. `InvokeDynamicConstant.of` makes
        a new object, and those are equal only to themselves, so the lookup
        never finds one: the constant is always appended. `instance` is the new
        object's identity, used by no constant in the pool. A negative
        bootstrap index fails in `of`, after the name-and-type constant has
        been added. */
    method AddOrGetInvokeDynamic(bootstrapMethodAttrIndex: int, name: string, descriptor: string, instance: nat)
      returns (r: Result<int>)
      requires pool.Consistent()
      requires forall c | c in pool.interned :: !(c.IsBootstrapRef() && c.instance == instance)
      modifies pool
      ensures pool.Consistent() && Extends(old(pool.constants), pool.constants) && MapExtends(old(pool.interned), pool.interned)
      ensures pool.constants == old(pool.constants) ==> pool.interned == old(pool.interned)
      ensures r.Success? <==> bootstrapMethodAttrIndex >= 0
      ensures r.Success? ==> (r.value == |pool.constants| - 1 && |pool.constants| > |old(pool.constants)| &&
        pool.constants[r.value].Some? && pool.constants[r.value].value.InvokeDynamicConstant? &&
        pool.constants[r.value].value.bootstrapMethodAttrIndex == bootstrapMethodAttrIndex &&
        MemberName(pool.constants, pool.constants[r.value].value) == Success(name) &&
        MemberDescriptor(pool.constants, pool.constants[r.value].value) == Success(descriptor))
    {
      var nameAndTypeIndex := AddOrGetNameAndType(name, descriptor);
      ghost var afterNameAndType := pool.constants;
      ghost var nt := afterNameAndType[nameAndTypeIndex].value;
      var constant := BootstrapRefConstantOf(INVOKE_DYNAMIC, bootstrapMethodAttrIndex, nameAndTypeIndex, instance);
      if constant.Failure? {
        return Failure(constant.error);
      }
      var index := AddOrGet(constant.value);
      assert pool.constants[nameAndTypeIndex] == afterNameAndType[nameAndTypeIndex];
      assert pool.constants[nt.nameIndex] == afterNameAndType[nt.nameIndex];
      assert pool.constants[nt.descriptorIndex] == afterNameAndType[nt.descriptorIndex];
      return Success(index);
    }

    /** `addOrGetMethodHandleConstantIndex` as written: the handle always
        points to a method ref, whatever its kind, so for a field kind or for
        invoke-interface it points to a constant of a type the kind does not
        allow. */
    method AddOrGetMethodHandleAsWritten(referenceKind: ReferenceKind, className: string, methodName: string, descriptor: string)
      returns (index: int)
      requires pool.Consistent()
      modifies pool
      ensures pool.Consistent() && Extends(old(pool.constants), pool.constants)
      ensures 1 <= index < |pool.constants| && pool.constants[index].Some? && pool.constants[index].value.MethodHandleConstant?
      ensures pool.constants[index].value.referenceKind == referenceKind
      ensures 1 <= pool.constants[index].value.referenceIndex < |pool.constants|
      ensures pool.constants[pool.constants[index].value.referenceIndex].Some?
      ensures TypeOf(pool.constants[pool.constants[index].value.referenceIndex].value) == METHOD_REF
      ensures ReferenceTypeAllowed(referenceKind, METHOD_REF) <==> RefTypeFor(referenceKind) == METHOD_REF
    {
      var methodRefIndex := AddOrGetRef(METHOD_REF, className, methodName, descriptor);
      ghost var afterRef := pool.constants;
      index := AddOrGet(MethodHandleConstant(referenceKind, methodRefIndex));
      assert pool.constants[methodRefIndex] == afterRef[methodRefIndex];
    }

    /** The method handle with a ref of the type its kind requires: a field
        ref for the four field kinds, an interface-method ref for
        invoke-interface and a method ref otherwise. */
    method AddOrGetMethodHandle(referenceKind: ReferenceKind, className: string, memberName: string, descriptor: string)
      returns (index: int)
      requires pool.Consistent()
      modifies pool
      ensures pool.Consistent() && Extends(old(pool.constants), pool.constants) && MapExtends(old(pool.interned), pool.interned)
      ensures pool.constants == old(pool.constants) ==> pool.interned == old(pool.interned)
      ensures 1 <= index < |pool.constants| && pool.constants[index].Some? && pool.constants[index].value.MethodHandleConstant?
      ensures pool.constants[index].value.referenceKind == referenceKind
      ensures MethodHandleConstantOf(referenceKind, pool.constants[index].value.referenceIndex).Success?
      ensures Referenced(pool.constants, pool.constants[index].value) ==
        Success([MethodHandleVisitFor(RefTypeFor(referenceKind), pool.constants[index].value.referenceIndex)])
      ensures RefInterned(RefTypeFor(referenceKind), className, memberName, descriptor)
      ensures MethodHandleConstant(referenceKind, RefIndex(RefTypeFor(referenceKind), className, memberName, descriptor)) in pool.interned
      ensures pool.interned[MethodHandleConstant(referenceKind, RefIndex(RefTypeFor(referenceKind), className, memberName, descriptor))] == index
      ensures pool.constants == old(pool.constants) <==>
        old(RefInterned(RefTypeFor(referenceKind), className, memberName, descriptor) &&
            MethodHandleConstant(referenceKind, RefIndex(RefTypeFor(referenceKind), className, memberName, descriptor)) in pool.interned)
    {
      var refIndex := AddOrGetRef(RefTypeFor(referenceKind), className, memberName, descriptor);
      ghost var afterRef := pool.constants;
      index := AddOrGet(MethodHandleConstant(referenceKind, refIndex));
      assert pool.constants[refIndex] == afterRef[refIndex];
      MethodHandleVisitMatchesTarget(pool.constants, referenceKind, refIndex);
    }
  }

  /** The discrepancy of `AddOrGetMethodHandleAsWritten`: for a field kind and
      for invoke-interface, a method ref is not what the kind requires. */
  lemma MethodHandleAsWrittenWrongTarget()
    ensures !ReferenceTypeAllowed(GET_FIELD, METHOD_REF)
    ensures !ReferenceTypeAllowed(INVOKE_INTERFACE, METHOD_REF)
    ensures forall k :: ReferenceTypeAllowed(k, RefTypeFor(k))
  {
  }
}
