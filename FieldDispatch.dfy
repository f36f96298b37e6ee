/**
  DrawField's choice of widget: a null reference first gets the
  "Create Instance" prompt, a null value type is replaced by its zero
  value, and then the first branch of a fixed cascade whose test the
  declared type passes draws the value.
*/
module FieldDispatch {
  import opened Common
  import opened JobData
  import opened FieldTypes

  /** Which branch of DrawField handles a value. */
  datatype Handler =
    | CreateInstancePrompt   // label "Null" and a "Create Instance" button
    | EnumPopup
    | FloatField
    | IntField
    | DoubleField
    | LongField
    | TextField
    | Toggle
    | UnityWidget            // the vector, rect, bounds, color and layer widgets
    | CurveField
    | GradientField
    | DictionaryDrawer
    | HashSetDrawer
    | CollectionDrawer
    | TupleDrawer
    | DateTimeDrawer
    | TimeSpanDrawer
    | CustomClassDrawer
    | ValueLabel             // no handler: the value is shown read-only and returned

  /** The condition of the custom serializable class branch: a class that
      is neither a UnityEngine.Object, nor primitive, nor string. */
  predicate CustomClassTest(t: TypeDesc)
  {
    IsClass(t) && !t.UnityObjectType? && !t.StringType?
  }

  /** The type tests of DrawField in source order, first match wins. */
  function Cascade(t: TypeDesc): Handler
  {
    if t.EnumType? then EnumPopup
    else if t.FloatType? then FloatField
    else if t.IntType? then IntField
    else if t.DoubleType? then DoubleField
    else if t.LongType? then LongField
    else if t.StringType? then TextField
    else if t.BoolType? then Toggle
    else if t.UnityStruct? then UnityWidget
    else if t.AnimationCurveType? then CurveField
    else if t.GradientType? then GradientField
    else if t.DictionaryType? then DictionaryDrawer
    else if t.HashSetType? then HashSetDrawer
    else if t.QueueType? || t.StackType? then CollectionDrawer
    else if t.ArrayType? || t.ListType? then CollectionDrawer
    else if t.TupleType? && |t.items| > 0 then TupleDrawer
    else if t.DateTimeType? then DateTimeDrawer
    else if t.TimeSpanType? then TimeSpanDrawer
    else if CustomClassTest(t) then CustomClassDrawer
    else ValueLabel
  }

  /**
    The handler DrawField uses for a value of declared type `t`; `isNull`
    says whether the value is null. A null of a reference type stops at the
    prompt; a null of a value type is drawn as its zero value, so the
    outcome is the one for a non-null value.
  */
  function Dispatch(t: TypeDesc, isNull: bool): (h: Handler)
    ensures h == CreateInstancePrompt <==> isNull && !IsValueType(t)
    ensures IsValueType(t) ==> h == Dispatch(t, false)
  {
    if isNull && !IsValueType(t) then CreateInstancePrompt else Cascade(t)
  }

  /** The value the value-type null branch substitutes before dispatching. */
  function Substituted(t: TypeDesc, value: Value): (v: Value)
    ensures value != Null ==> v == value
    ensures v == Null <==> value == Null && !IsValueType(t)
  {
    if value == Null && IsValueType(t) then ZeroValue(t) else value
  }

  /**
    The owner of every declared type, stated independently of the order of
    the tests: which widget each kind of type gets.
  */
  function Owner(t: TypeDesc): Handler
  {
    match t
    case EnumType(_) => EnumPopup
    case FloatType => FloatField
    case IntType => IntField
    case DoubleType => DoubleField
    case LongType => LongField
    case StringType => TextField
    case BoolType => Toggle
    case UnityStruct(_) => UnityWidget
    case AnimationCurveType => CurveField
    case GradientType => GradientField
    case DictionaryType(_, _) => DictionaryDrawer
    case HashSetType(_) => HashSetDrawer
    case QueueType(_) => CollectionDrawer
    case StackType(_) => CollectionDrawer
    case ArrayType(_) => CollectionDrawer
    case ListType(_) => CollectionDrawer
    case TupleType(items) => if |items| > 0 then TupleDrawer else CustomClassDrawer
    case ValueTupleType(_) => ValueLabel
    case DateTimeType => DateTimeDrawer
    case TimeSpanType => TimeSpanDrawer
    case UnityObjectType(_, _) => ValueLabel
    case InterfaceType(_) => ValueLabel
    case ObjectType => CustomClassDrawer
    case ClassType(_, _) => CustomClassDrawer
    case OtherValueType(_) => ValueLabel
  }

  /** The cascade gives every non-null value to its owner. */
  lemma CascadeOwner(t: TypeDesc)
    ensures Dispatch(t, false) == Owner(t)
  {
  }

  /**
    The custom class drawer only gets plain classes: every class that the
    earlier branches claim (curves, gradients, the containers, tuples)
    passes its test too, and loses to the earlier branch.
  */
  lemma CustomClassShadowed(t: TypeDesc)
    ensures Dispatch(t, false) == CustomClassDrawer <==>
              t.ClassType? || t.ObjectType? || (t.TupleType? && |t.items| == 0)
    ensures CustomClassTest(t) && Dispatch(t, false) != CustomClassDrawer <==>
              t.AnimationCurveType? || t.GradientType? || t.DictionaryType? || t.HashSetType? ||
              t.QueueType? || t.StackType? || t.ArrayType? || t.ListType? ||
              (t.TupleType? && |t.items| > 0)
  {
  }

  /** Queues and stacks share the list drawer. */
  lemma QueueStackUseCollectionDrawer(t: TypeDesc)
    ensures Dispatch(t, false) == CollectionDrawer <==>
              t.QueueType? || t.StackType? || t.ArrayType? || t.ListType?
  {
  }

  /** What falls through to the read-only label: Unity objects,
      interfaces, value tuples and the other structs. */
  lemma ReadOnlyFallback(t: TypeDesc)
    ensures Dispatch(t, false) == ValueLabel <==>
              t.UnityObjectType? || t.InterfaceType? || t.ValueTupleType? || t.OtherValueType?
  {
  }

  /**
    `Activator.CreateInstance(t)` behind the "Create Instance" button, for
    the reference types the prompt is offered for. `created` is the
    instance reflection builds for a class with a parameterless
    constructor. Strings, arrays, tuples and interfaces have no
    parameterless constructor.
  */
  function CreateInstance(t: TypeDesc, created: Value): (r: Result<Value>)
    requires !IsValueType(t) && created != Null
    ensures r.Err? <==> t.StringType? || t.ArrayType? || t.TupleType? || t.InterfaceType? ||
                        ((t.ClassType? || t.UnityObjectType?) && !t.hasDefaultConstructor)
    ensures r.Err? ==> r.error == MissingMethod
    ensures r.Ok? ==> r.value != Null
  {
    match t
    case StringType => Err(MissingMethod)
    case ArrayType(_) => Err(MissingMethod)
    case TupleType(_) => Err(MissingMethod)
    case InterfaceType(_) => Err(MissingMethod)
    case AnimationCurveType => Ok(Composite("AnimationCurve", []))
    case GradientType => Ok(Composite("Gradient", []))
    case DictionaryType(_, _) => Ok(Dictionary([]))
    case HashSetType(_) => Ok(HashSet({}))
    case QueueType(_) => Ok(Sequence([]))
    case StackType(_) => Ok(Sequence([]))
    case ListType(_) => Ok(Sequence([]))
    case ObjectType => Ok(Record("Object", [], []))
    case ClassType(_, hasCtor) => if hasCtor then Ok(created) else Err(MissingMethod)
    case UnityObjectType(_, hasCtor) => if hasCtor then Ok(created) else Err(MissingMethod)
  }

  /**
    The null branch of DrawField for a reference type: null stays null
    unless "Create Instance" is pressed, which returns the new instance or
    raises what CreateInstance raises.
  */
  function DrawNullReference(t: TypeDesc, pressed: bool, created: Value): (r: Result<Value>)
    requires !IsValueType(t) && created != Null
    ensures !pressed ==> r == Ok(Null)
    ensures pressed ==> r == CreateInstance(t, created)
  {
    if pressed then CreateInstance(t, created) else Ok(Null)
  }

  /**
    The prompt stays until it succeeds: without a press the field is still
    null and is prompted again on the next pass; a press that creates an
    instance hands the field, on the next pass, to the editor of its own
    type.
  */
  lemma PromptLeadsToOwner(t: TypeDesc, pressed: bool, created: Value)
    requires !IsValueType(t) && created != Null
    ensures !pressed ==> Dispatch(t, DrawNullReference(t, pressed, created) == Ok(Null)) == CreateInstancePrompt
    ensures DrawNullReference(t, pressed, created).Ok? && pressed ==>
              Dispatch(t, DrawNullReference(t, pressed, created).value == Null) == Owner(t)
  {
  }

  /** A job created by the "Add Job" menu starts with null strings, and
      pressing "Create Instance" on one raises. */
  lemma NullStringPromptRaises(created: Value)
    requires created != Null
    ensures Dispatch(StringType, true) == CreateInstancePrompt
    ensures DrawNullReference(StringType, true, created) == Err(MissingMethod)
  {
  }

  /**
    The prompt as evidently intended: every type the inspector can edit
    gets a usable empty value (an empty string, an empty array, a tuple of
    nulls and zero values); only interfaces and classes without a
    parameterless constructor cannot be created, and for those the button
    leaves the field null instead of raising.
  */
  function CreateInstanceFixed(t: TypeDesc, created: Value): (v: Value)
    requires !IsValueType(t) && created != Null
    ensures v == Null <==> t.InterfaceType? ||
                            ((t.ClassType? || t.UnityObjectType?) && !t.hasDefaultConstructor)
  {
    match t
    case StringType => Str("")
    case ArrayType(_) => Sequence([])
    case TupleType(items) => Tuple(seq(|items|, i requires 0 <= i < |items| => NewElement(items[i])))
    case InterfaceType(_) => Null
    case AnimationCurveType => Composite("AnimationCurve", [])
    case GradientType => Composite("Gradient", [])
    case DictionaryType(_, _) => Dictionary([])
    case HashSetType(_) => HashSet({})
    case QueueType(_) => Sequence([])
    case StackType(_) => Sequence([])
    case ListType(_) => Sequence([])
    case ObjectType => Record("Object", [], [])
    case ClassType(_, hasCtor) => if hasCtor then created else Null
    case UnityObjectType(_, hasCtor) => if hasCtor then created else Null
  }

  /** With the fixed prompt, a created string, array or tuple is handed to
      its own editor on the next draw, and every other type gets what
      CreateInstance would have built. */
  lemma CreatedValueIsEditable(t: TypeDesc, created: Value)
    requires created != Null
    requires t.StringType? || t.ArrayType? || (t.TupleType? && |t.items| > 0)
    ensures CreateInstanceFixed(t, created) != Null
    ensures Dispatch(t, CreateInstanceFixed(t, created) == Null) == Owner(t)
  {
  }

  /** Where CreateInstance succeeds, the fixed prompt builds the same value. */
  lemma CreateInstanceFixedAgrees(t: TypeDesc, created: Value)
    requires !IsValueType(t) && created != Null
    ensures CreateInstance(t, created).Ok? ==> CreateInstanceFixed(t, created) == CreateInstance(t, created).value
  {
  }
}
