/**
  Values of job fields and job instances as the inspector sees them
  through reflection: a job is an instance of some concrete job type with
  its public fields and public properties in declaration order.
*/
module JobData {
  import opened Common

  /** A public instance property with its accessors and current value. */
  datatype Property = Property(name: string, canRead: bool, canWrite: bool, value: Value)

  /** The run-time value held by a field, a property or a container slot. */
  datatype Value =
    | Null
    | Bool(b: bool)
    | Int(i: int)
    | Long(l: int)
    | Str(s: string)
    | EnumMember(ordinal: int)
    | Ticks(ticks: int)                          // DateTime or TimeSpan, in 100 ns ticks
    | Composite(tag: string, parts: seq<Value>)  // float, vector, rect, color, curve ... kept opaque
    | Sequence(items: seq<Value>)                // array, List, Queue, Stack in enumeration order
    | Dictionary(entries: seq<(Value, Value)>)   // in enumeration order
    | HashSet(members: set<Value>)
    | Tuple(items: seq<Value>)
    | Record(typeName: string, fields: seq<Value>, props: seq<Property>)
    | ObjectRef(id: nat)                         // a UnityEngine.Object or other opaque reference

  /** An instance of a concrete IJob type. `props` are its public instance
      properties (Name among them); IsExecuting, read by the job list, is
      kept apart as a flag. */
  datatype Job = Job(kind: string, fields: seq<Value>, props: seq<Property>, isExecuting: bool)

  /** One entry of the job list (the CustomJobs wrapper); `script` is a
      possibly-null IJob reference. */
  datatype Slot = Slot(script: Option<Job>)

  /** Two instances have the same concrete type: same kind and the same
      member layout, member by member. */
  predicate SameType(a: Job, b: Job)
  {
    && a.kind == b.kind
    && |a.fields| == |b.fields|
    && |a.props| == |b.props|
    && forall i :: 0 <= i < |a.props| ==>
         a.props[i].name == b.props[i].name &&
         a.props[i].canRead == b.props[i].canRead &&
         a.props[i].canWrite == b.props[i].canWrite
  }
}
