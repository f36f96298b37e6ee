/**
  The container drawers of DrawField: arrays and lists (and the queues and
  stacks sent to the same drawer), hash sets and System.Tuple values. The
  value each nested DrawField call returns for element i is `edit(i, v)`;
  the buttons pressed in this pass are `plus`, the set `minus` of rows
  whose "-" was pressed, and `addElement`.
*/
module CollectionDrawers {
  import opened Common
  import opened JobData
  import opened FieldTypes
  import Lists

  /** The first row at or after `from`, and before `n`, whose "-" was pressed. */
  function FirstPressed(minus: set<nat>, from: nat, n: nat): (r: Option<nat>)
    ensures r.Some? ==> from <= r.value < n && r.value in minus &&
                        forall j :: from <= j < r.value ==> j !in minus
    ensures r.None? ==> forall j :: from <= j < n ==> j !in minus
    decreases n - from
  {
    if from >= n then None
    else if from in minus then Some(from)
    else FirstPressed(minus, from + 1, n)
  }

  /** `s` with the first `n` elements replaced by what their editors return. */
  function EditedPrefix(s: seq<Value>, n: nat, edit: (nat, Value) -> Value): (r: seq<Value>)
    requires n <= |s|
    ensures |r| == |s|
    ensures forall j :: 0 <= j < n ==> r[j] == edit(j, s[j])
    ensures forall j :: n <= j < |s| ==> r[j] == s[j]
  {
    seq(|s|, j requires 0 <= j < |s| => if j < n then edit(j, s[j]) else s[j])
  }

  /**
    One pass of the element loop of a resizable list: every row is edited
    in turn until the first row whose "-" was pressed; that row (already
    edited) is removed and the rows after it are left as they were.
  */
  function ListPass(s: seq<Value>, minus: set<nat>, edit: (nat, Value) -> Value): seq<Value>
  {
    match FirstPressed(minus, 0, |s|)
    case None => EditedPrefix(s, |s|, edit)
    case Some(k) => Lists.RemoveAt(EditedPrefix(s, k + 1, edit), k)
  }

  /**
    What the collection drawer makes of `items`: a list first gets the new
    element `newItem` at the end when "+" was pressed and then goes through
    ListPass; an array has no buttons and every element is edited.
  */
  function CollectionEdit(items: seq<Value>, isArray: bool, newItem: Value, plus: bool,
                          minus: set<nat>, edit: (nat, Value) -> Value): seq<Value>
  {
    if isArray then EditedPrefix(items, |items|, edit)
    else ListPass(if plus then items + [newItem] else items, minus, edit)
  }

  /** An array keeps its length, and each element is what its editor returned. */
  lemma ArrayKeepsLength(items: seq<Value>, newItem: Value, plus: bool, minus: set<nat>, edit: (nat, Value) -> Value)
    ensures |CollectionEdit(items, true, newItem, plus, minus, edit)| == |items|
    ensures forall j :: 0 <= j < |items| ==> CollectionEdit(items, true, newItem, plus, minus, edit)[j] == edit(j, items[j])
  {
  }

  /** "+" on a list adds one element at the end, drawn in the same pass. */
  lemma PlusAppends(items: seq<Value>, newItem: Value, minus: set<nat>, edit: (nat, Value) -> Value)
    requires forall j :: 0 <= j <= |items| ==> j !in minus
    ensures |CollectionEdit(items, false, newItem, true, minus, edit)| == |items| + 1
    ensures CollectionEdit(items, false, newItem, true, minus, edit)[|items|] == edit(|items|, newItem)
    ensures forall j :: 0 <= j < |items| ==> CollectionEdit(items, false, newItem, true, minus, edit)[j] == edit(j, items[j])
  {
    var r := FirstPressed(minus, 0, |items| + 1);
    assert r.None?;
  }

  /** "-" on row k removes that row: the rows before it are edited, the
      rows after it move down by one unedited. */
  lemma MinusRemoves(s: seq<Value>, minus: set<nat>, edit: (nat, Value) -> Value, k: nat)
    requires k < |s| && k in minus && forall j :: 0 <= j < k ==> j !in minus
    ensures |ListPass(s, minus, edit)| == |s| - 1
    ensures forall j :: 0 <= j < k ==> ListPass(s, minus, edit)[j] == edit(j, s[j])
    ensures forall j :: k <= j < |s| - 1 ==> ListPass(s, minus, edit)[j] == s[j + 1]
  {
    var r := FirstPressed(minus, 0, |s|);
    assert r == Some(k);
  }

  /** Without edits and without buttons the collection is left as it was. */
  lemma UntouchedCollection(items: seq<Value>, isArray: bool, newItem: Value, minus: set<nat>, edit: (nat, Value) -> Value)
    requires forall j, v :: edit(j, v) == v
    requires forall j :: 0 <= j < |items| ==> j !in minus
    ensures CollectionEdit(items, isArray, newItem, false, minus, edit) == items
  {
    if !isArray {
      var r := FirstPressed(minus, 0, |items|);
      assert r.None?;
    }
    assert EditedPrefix(items, |items|, edit) == items;
  }

  /** The run-time class of a collection object the drawer receives. */
  datatype CollectionKind = ArrayKind | ListKind | QueueKind | StackKind

  /** Arrays and List<T> implement IList; Queue<T> and Stack<T> do not. */
  predicate IsIList(kind: CollectionKind)
  {
    kind == ArrayKind || kind == ListKind
  }

  /** A collection object, edited in place through its IList view. */
  class Collection {
    const kind: CollectionKind
    var items: seq<Value>

    constructor (kind: CollectionKind, items: seq<Value>)
      ensures this.kind == kind && this.items == items
    {
      this.kind := kind;
      this.items := items;
    }

    /** The body of DrawCollectionField once the IList view exists. */
    method EditElements(newItem: Value, plus: bool, minus: set<nat>, edit: (nat, Value) -> Value)
      modifies this
      ensures items == CollectionEdit(old(items), kind == ArrayKind, newItem, plus, minus, edit)
    {
      var isArray := kind == ArrayKind;
      if !isArray && plus {
        items := items + [newItem];
      }
      ghost var start := items;
      var i := 0;
      while i < |items|
        invariant |items| == |start| && 0 <= i <= |start|
        invariant items == EditedPrefix(start, i, edit)
        invariant !isArray ==> forall j :: 0 <= j < i ==> j !in minus
      {
        items := items[i := edit(i, items[i])];
        assert items == EditedPrefix(start, i + 1, edit);
        if !isArray && i in minus {
          assert FirstPressed(minus, 0, |start|) == Some(i);
          items := Lists.RemoveAt(items, i);
          return;
        }
        i := i + 1;
      }
      assert !isArray ==> FirstPressed(minus, 0, |start|).None?;
    }
  }

  /**
    DrawCollectionField as written: the value is cast to IList, which
    raises InvalidCastException for a queue or a stack before anything is
    drawn; otherwise the collection is edited in place and returned.
  */
  method DrawCollectionField(c: Collection, elementType: TypeDesc, plus: bool, minus: set<nat>,
                             edit: (nat, Value) -> Value)
    returns (r: Result<Collection>)
    modifies c
    ensures !IsIList(c.kind) ==> r == Err(InvalidCast) && c.items == old(c.items)
    ensures IsIList(c.kind) ==>
              r == Ok(c) &&
              c.items == CollectionEdit(old(c.items), c.kind == ArrayKind, NewElement(elementType), plus, minus, edit)
  {
    if !IsIList(c.kind) {
      return Err(InvalidCast);
    }
    c.EditElements(NewElement(elementType), plus, minus, edit);
    return Ok(c);
  }

  /**
    The collection drawer as evidently intended for the queues and stacks
    it is given: their elements, in enumeration order, are edited like a
    list's, with "+" and "-".
  */
  method DrawCollectionFieldFixed(c: Collection, elementType: TypeDesc, plus: bool, minus: set<nat>,
                                  edit: (nat, Value) -> Value)
    returns (r: Collection)
    modifies c
    ensures r == c
    ensures c.items == CollectionEdit(old(c.items), c.kind == ArrayKind, NewElement(elementType), plus, minus, edit)
  {
    c.EditElements(NewElement(elementType), plus, minus, edit);
    return c;
  }

  /**
    The element loop and "Add Element" of DrawHashSetField, on the list
    built from the set's enumeration `elements`.
  */
  method DrawHashSetList(elements: seq<Value>, elementType: TypeDesc, minus: set<nat>, addElement: bool,
                         edit: (nat, Value) -> Value)
    returns (list: seq<Value>)
    ensures list == ListPass(elements, minus, edit) + (if addElement then [NewElement(elementType)] else [])
  {
    list := elements;
    var i := 0;
    var removed := false;
    while i < |list|
      invariant |list| == |elements| && 0 <= i <= |elements|
      invariant list == EditedPrefix(elements, i, edit)
      invariant forall j :: 0 <= j < i ==> j !in minus
    {
      list := list[i := edit(i, list[i])];
      assert list == EditedPrefix(elements, i + 1, edit);
      if i in minus {
        assert FirstPressed(minus, 0, |elements|) == Some(i);
        list := Lists.RemoveAt(list, i);
        removed := true;
        break;
      }
      i := i + 1;
    }
    if !removed {
      assert FirstPressed(minus, 0, |elements|).None?;
    }
    if addElement {
      list := list + [NewElement(elementType)];
    }
  }

  /**
    The rebuild as written: `Activator.CreateInstance(HashSet<T>, list)`
    with a List<object> argument finds a constructor only when T is
    object; for every other element type it raises MissingMethodException.
  */
  function RebuildHashSetAsWritten(elementType: TypeDesc, list: seq<Value>): (r: Result<Value>)
    ensures r.Err? <==> !elementType.ObjectType?
    ensures r.Err? ==> r.error == MissingMethod
    ensures r.Ok? ==> r.value.HashSet? && forall x :: x in r.value.members <==> x in list
  {
    if elementType.ObjectType? then Ok(HashSet(set x | x in list)) else Err(MissingMethod)
  }

  /** A HashSet<int> field raises on every draw, even with no input. */
  lemma HashSetOfIntRaises(elements: seq<Value>)
    ensures RebuildHashSetAsWritten(IntType, elements) == Err(MissingMethod)
    ensures forall t: TypeDesc :: !t.ObjectType? ==> RebuildHashSetAsWritten(t, elements) == Err(MissingMethod)
  {
  }

  /** The rebuild as evidently intended: a set of the edited elements. */
  function RebuildHashSet(list: seq<Value>): (r: Value)
    ensures r.HashSet? && forall x :: x in r.members <==> x in list
    ensures |r.members| <= |list|
  {
    SetSize(list);
    HashSet(set x | x in list)
  }

  lemma {:induction false} SetSize(list: seq<Value>)
    ensures |set x | x in list| <= |list|
  {
    if |list| > 0 {
      var last := list[|list| - 1];
      var init := list[..|list| - 1];
      SetSize(init);
      assert (set x | x in list) == (set x | x in init) + {last};
    }
  }

  /** Drawing a set without input gives back exactly the same members. */
  lemma UntouchedHashSet(members: set<Value>, elements: seq<Value>, elementType: TypeDesc,
                         minus: set<nat>, edit: (nat, Value) -> Value)
    requires forall x :: x in elements <==> x in members
    requires forall j, v :: edit(j, v) == v
    requires forall j :: 0 <= j < |elements| ==> j !in minus
    ensures RebuildHashSet(ListPass(elements, minus, edit)) == HashSet(members)
  {
    UntouchedCollection(elements, false, Null, minus, edit);
    assert ListPass(elements, minus, edit) == elements;
  }

  /** What the tuple drawer hands back: the original object or a new one. */
  datatype TupleOutcome = Original | Rebuilt(values: seq<Value>)

  /**
    DrawTupleField with the member list `members` it reads component i
    from: each of the `arity` components is drawn, and the tuple is rebuilt
    from the drawn values only if one of them differs from what was read.
    Reading past the end of `members` raises IndexOutOfRangeException.
  */
  function TupleResult(arity: nat, members: seq<Value>, edit: (nat, Value) -> Value): (r: Result<TupleOutcome>)
  {
    if |members| < arity then Err(IndexOutOfRange)
    else if exists i :: 0 <= i < arity && edit(i, members[i]) != members[i] then
      Ok(Rebuilt(seq(arity, i requires 0 <= i < arity => edit(i, members[i]))))
    else Ok(Original)
  }

  /** The loop of DrawTupleField over the components. */
  method DrawTupleField(arity: nat, members: seq<Value>, edit: (nat, Value) -> Value)
    returns (r: Result<TupleOutcome>)
    ensures r == TupleResult(arity, members, edit)
  {
    var newValues: seq<Value> := [];
    var valueChanged := false;
    var i := 0;
    while i < arity
      invariant 0 <= i <= arity && i <= |members|
      invariant |newValues| == i
      invariant forall j :: 0 <= j < i ==> newValues[j] == edit(j, members[j])
      invariant valueChanged <==> exists j :: 0 <= j < i && edit(j, members[j]) != members[j]
    {
      if i >= |members| {
        return Err(IndexOutOfRange);
      }
      var fieldValue := members[i];
      var newValue := edit(i, fieldValue);
      if newValue != fieldValue {
        valueChanged := true;
      }
      newValues := newValues + [newValue];
      i := i + 1;
    }
    if valueChanged {
      assert newValues == seq(arity, j requires 0 <= j < arity => edit(j, members[j]));
      return Ok(Rebuilt(newValues));
    }
    return Ok(Original);
  }

  /** `fieldType.GetFields()` on System.Tuple: its components are
      properties, so the list of public fields is empty. */
  function TuplePublicFields(items: seq<Value>): seq<Value>
  {
    []
  }

  /** As written, drawing any System.Tuple raises on its first component. */
  lemma TupleAsWrittenRaises(items: seq<Value>, edit: (nat, Value) -> Value)
    requires |items| > 0
    ensures TupleResult(|items|, TuplePublicFields(items), edit) == Err(IndexOutOfRange)
  {
  }

  /** Read through its Item1 .. ItemN properties instead, a tuple is kept
      when nothing changed and rebuilt from the drawn values otherwise. */
  lemma TupleRebuiltOnlyOnChange(items: seq<Value>, edit: (nat, Value) -> Value)
    ensures TupleResult(|items|, items, edit).Ok?
    ensures TupleResult(|items|, items, edit) == Ok(Original) <==>
              forall i :: 0 <= i < |items| ==> edit(i, items[i]) == items[i]
    ensures TupleResult(|items|, items, edit).value.Rebuilt? ==>
              |TupleResult(|items|, items, edit).value.values| == |items| &&
              forall i :: 0 <= i < |items| ==> TupleResult(|items|, items, edit).value.values[i] == edit(i, items[i])
  {
  }
}
