/** The JVM field types that descriptors denote (section 4.3.2 of the Java
    Virtual Machine Specification). Descriptor parsing is not part of this
    model: an instruction or method carries its types already parsed. */
module JvmTypes {

  datatype JvmType =
    | ByteT | ShortT | CharT | BooleanT | IntT | FloatT | LongT | DoubleT
    | VoidT
    | ClassT(name: string)
    | ArrayT(component: JvmType)
  {
    predicate IsReferenceType() { ClassT? || ArrayT? }
    predicate IsPrimitiveType() { !IsReferenceType() && !VoidT? }
    predicate IsArrayType() { ArrayT? }
    predicate IsVoidType() { VoidT? }
  }

  const JAVA_LANG_STRING_TYPE: JvmType := ClassT("java/lang/String")
  const JAVA_LANG_THROWABLE_TYPE: JvmType := ClassT("java/lang/Throwable")

  /** The descriptor string of a type; for a class it is `L<name>;`. */
  function Descriptor(t: JvmType): string {
    match t
    case ByteT => "B"
    case ShortT => "S"
    case CharT => "C"
    case BooleanT => "Z"
    case IntT => "I"
    case FloatT => "F"
    case LongT => "J"
    case DoubleT => "D"
    case VoidT => "V"
    case ClassT(n) => "L" + n + ";"
    case ArrayT(c) => "[" + Descriptor(c)
  }

  /** The internal class name that a class constant for `t` holds: the plain
      name of a class, the descriptor of an array class. */
  function ClassName(t: JvmType): string {
    if t.ClassT? then t.name else Descriptor(t)
  }
}
