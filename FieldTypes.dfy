/**
  The declared type of a field as the generic field drawer inspects it:
  the handful of reflection questions it asks (IsValueType, IsEnum,
  IsGenericType with its definition, IsArray, IsClass, assignability to
  UnityEngine.Object) are answered by the shape of a TypeDesc.
*/
module FieldTypes {
  import opened JobData

  datatype TypeDesc =
    | EnumType(name: string)
    | FloatType
    | IntType
    | DoubleType
    | LongType
    | StringType
    | BoolType
    | UnityStruct(name: string)                   // a Unity struct with its own widget (Vector2 .. Color32, LayerMask); the name is not checked
    | AnimationCurveType                          // a class
    | GradientType                                // a class
    | DictionaryType(key: TypeDesc, value: TypeDesc)
    | HashSetType(element: TypeDesc)
    | QueueType(element: TypeDesc)
    | StackType(element: TypeDesc)
    | ArrayType(element: TypeDesc)
    | ListType(element: TypeDesc)
    | TupleType(items: seq<TypeDesc>)             // System.Tuple`n; generic when n > 0
    | ValueTupleType(items: seq<TypeDesc>)        // System.ValueTuple`n
    | DateTimeType
    | TimeSpanType
    | UnityObjectType(name: string, hasDefaultConstructor: bool)  // assignable to UnityEngine.Object
    | InterfaceType(name: string)
    | ObjectType                                  // System.Object
    | ClassType(name: string, hasDefaultConstructor: bool)  // any other class
    | OtherValueType(name: string)                // decimal, char, other structs

  /** Type.IsValueType. */
  predicate IsValueType(t: TypeDesc)
  {
    || t.EnumType? || t.FloatType? || t.IntType? || t.DoubleType? || t.LongType?
    || t.BoolType? || t.UnityStruct? || t.ValueTupleType? || t.DateTimeType?
    || t.TimeSpanType? || t.OtherValueType?
  }

  /** Type.IsClass (arrays and delegates are classes, interfaces are not). */
  predicate IsClass(t: TypeDesc)
  {
    !IsValueType(t) && !t.InterfaceType?
  }

  /** `Activator.CreateInstance(t)` for a value type: its all-zero value. */
  function ZeroValue(t: TypeDesc): (v: Value)
    requires IsValueType(t)
    ensures v != Null
  {
    match t
    case EnumType(_) => EnumMember(0)
    case IntType => Int(0)
    case LongType => Long(0)
    case BoolType => Bool(false)
    case DateTimeType => Ticks(0)
    case TimeSpanType => Ticks(0)
    case ValueTupleType(_) => Composite("ValueTuple", [])
    case FloatType => Composite("float", [])
    case DoubleType => Composite("double", [])
    case UnityStruct(name) => Composite(name, [])
    case OtherValueType(name) => Composite(name, [])
  }

  /** The element the drawers add for a new slot:
      `t.IsValueType ? Activator.CreateInstance(t) : null`. */
  function NewElement(t: TypeDesc): (v: Value)
    ensures v == Null <==> !IsValueType(t)
  {
    if IsValueType(t) then ZeroValue(t) else Null
  }
}
