/**
  DrawDictionaryField: every entry is drawn as a key editor and a value
  editor with a "-" button; a deleted or changed entry is removed after
  the pass, the last change is put back under its new key, and
  "Add Entry" adds the default key with the default value. The value each
  nested DrawField call returns for entry i is `editKey(i, key)` and
  `editValue(i, value)`; `minus` holds the entries whose "-" was pressed.
*/
module DictionaryDrawer {
  import opened Common
  import opened JobData
  import opened FieldTypes

  /** `s` without the occurrences of `x`, order kept. */
  function Without(s: seq<Value>, x: Value): (r: seq<Value>)
    ensures forall y :: y in r <==> y in s && y != x
    ensures |r| <= |s|
  {
    if |s| == 0 then []
    else if s[0] == x then Without(s[1..], x)
    else [s[0]] + Without(s[1..], x)
  }

  predicate Distinct(s: seq<Value>)
  {
    forall i, j :: 0 <= i < j < |s| ==> s[i] != s[j]
  }

  lemma {:induction false} WithoutDistinct(s: seq<Value>, x: Value)
    requires Distinct(s)
    ensures Distinct(Without(s, x))
  {
    if |s| > 0 {
      assert Distinct(s[1..]);
      WithoutDistinct(s[1..], x);
      if s[0] != x {
        var r := Without(s[1..], x);
        assert s[0] !in r by {
          assert s[0] !in s[1..];
        }
        assert [s[0]] + r == Without(s, x);
      }
    }
  }

  /**
    A Dictionary<TKey, TValue> object: its entries in enumeration order
    (`keys`) and the value stored under each key.
  */
  class NetDictionary {
    var keys: seq<Value>
    var contents: map<Value, Value>

    ghost predicate Valid()
      reads this
    {
      && (forall k :: k in keys <==> k in contents)
      && Distinct(keys)
      && Null !in contents
    }

    constructor ()
      ensures Valid() && contents == map[]
    {
      keys := [];
      contents := map[];
    }

    /** Dictionary.Remove(key): a missing key is no error. */
    method Remove(key: Value)
      requires Valid()
      modifies this
      ensures Valid() && contents == old(contents) - {key}
    {
      WithoutDistinct(keys, key);
      keys := Without(keys, key);
      contents := contents - {key};
    }

    /** The indexer `dictionary[key] = value`: overwrite or add. The caller
        keeps null keys away. */
    method SetItem(key: Value, value: Value)
      requires Valid() && key != Null
      modifies this
      ensures Valid() && contents == old(contents)[key := value]
    {
      if key !in contents {
        keys := keys + [key];
      }
      contents := contents[key := value];
    }

    /** Dictionary.Add(key, value): raises for a null key and for a key
        already present, and then changes nothing. */
    method Add(key: Value, value: Value) returns (r: Result<()>)
      requires Valid()
      modifies this
      ensures Valid()
      ensures r.Err? <==> AddChecked(old(contents), key, value).Err?
      ensures r.Err? ==> r.error == AddChecked(old(contents), key, value).error
      ensures r.Ok? ==> contents == AddChecked(old(contents), key, value).value
      ensures r.Err? ==> contents == old(contents) && keys == old(keys)
    {
      if key == Null {
        return Err(ArgumentNull);
      }
      if key in contents {
        return Err(DuplicateKey);
      }
      keys := keys + [key];
      contents := contents[key := value];
      return Ok(());
    }
  }

  /** Dictionary.Add on the key-value view. */
  function AddChecked(m: map<Value, Value>, key: Value, value: Value): (r: Result<map<Value, Value>>)
    ensures r.Err? <==> key == Null || key in m
    ensures key == Null ==> r == Err(ArgumentNull)
    ensures key != Null && key in m ==> r == Err(DuplicateKey)
    ensures r.Ok? ==> r.value == m[key := value] && key !in m
  {
    if key == Null then Err(ArgumentNull)
    else if key in m then Err(DuplicateKey)
    else Ok(m[key := value])
  }

  /** Every listed key has a value. */
  ghost predicate Covers(ks: seq<Value>, m: map<Value, Value>)
  {
    forall i :: 0 <= i < |ks| ==> ks[i] in m
  }

  /** Entry i was changed by its editors. */
  predicate Changed(ks: seq<Value>, m: map<Value, Value>, editKey: (nat, Value) -> Value,
                    editValue: (nat, Value) -> Value, i: nat)
    requires i < |ks| && ks[i] in m
  {
    editKey(i, ks[i]) != ks[i] || editValue(i, m[ks[i]]) != m[ks[i]]
  }

  /** keysToRemove after the first n entries: the key of an entry whose
      "-" was pressed, and again if it was changed. */
  function ToRemove(ks: seq<Value>, m: map<Value, Value>, editKey: (nat, Value) -> Value,
                    editValue: (nat, Value) -> Value, minus: set<nat>, n: nat): (r: seq<Value>)
    requires n <= |ks| && Covers(ks, m)
    ensures forall x :: x in r <==>
              exists i :: 0 <= i < n && ks[i] == x && (i in minus || Changed(ks, m, editKey, editValue, i))
  {
    if n == 0 then []
    else
      var k := ks[n - 1];
      ToRemove(ks, m, editKey, editValue, minus, n - 1)
        + (if n - 1 in minus then [k] else [])
        + (if Changed(ks, m, editKey, editValue, n - 1) then [k] else [])
  }

  /** The last of the first n entries that was changed, if any. */
  function LastChanged(ks: seq<Value>, m: map<Value, Value>, editKey: (nat, Value) -> Value,
                       editValue: (nat, Value) -> Value, n: nat): (r: Option<nat>)
    requires n <= |ks| && Covers(ks, m)
    ensures r.None? ==> forall i :: 0 <= i < n ==> !Changed(ks, m, editKey, editValue, i)
    ensures r.Some? ==> r.value < n && Changed(ks, m, editKey, editValue, r.value) &&
                        forall i :: r.value < i < n ==> !Changed(ks, m, editKey, editValue, i)
  {
    if n == 0 then None
    else if Changed(ks, m, editKey, editValue, n - 1) then Some(n - 1)
    else LastChanged(ks, m, editKey, editValue, n - 1)
  }

  /** (newKey, newValue) after the first n entries: the edits of the last
      changed entry, or (null, null) when none changed. */
  function NewPair(ks: seq<Value>, m: map<Value, Value>, editKey: (nat, Value) -> Value,
                   editValue: (nat, Value) -> Value, n: nat): (Value, Value)
    requires n <= |ks| && Covers(ks, m)
  {
    match LastChanged(ks, m, editKey, editValue, n)
    case None => (Null, Null)
    case Some(c) => (editKey(c, ks[c]), editValue(c, m[ks[c]]))
  }

  /** The contents once the keys `rs` have each been removed, every removal
      followed by `dictionary[newKey] = newValue` when newKey is not null. */
  function AfterRemovals(m: map<Value, Value>, rs: seq<Value>, newKey: Value, newValue: Value): map<Value, Value>
  {
    var rest := map k | k in m && k !in rs :: m[k];
    if newKey != Null && |rs| > 0 then rest[newKey := newValue] else rest
  }

  /** The contents after the edit pass of DrawDictionaryField. */
  function Merged(ks: seq<Value>, m: map<Value, Value>, editKey: (nat, Value) -> Value,
                  editValue: (nat, Value) -> Value, minus: set<nat>): map<Value, Value>
    requires Covers(ks, m)
  {
    var change := NewPair(ks, m, editKey, editValue, |ks|);
    AfterRemovals(m, ToRemove(ks, m, editKey, editValue, minus, |ks|), change.0, change.1)
  }

  /** The outcome of "Add Entry" on the merged contents: the zero key of a
      value type (or null for a reference type) with the zero value. */
  function AddEntry(m: map<Value, Value>, keyType: TypeDesc, valueType: TypeDesc): Result<map<Value, Value>>
  {
    AddChecked(m, NewElement(keyType), NewElement(valueType))
  }

  /** The first loop of DrawDictionaryField: draw every entry and collect
      keysToRemove, newKey and newValue; the dictionary is only read. */
  method ScanEntries(entries: seq<Value>, contents: map<Value, Value>, editKey: (nat, Value) -> Value,
                     editValue: (nat, Value) -> Value, minus: set<nat>)
    returns (keysToRemove: seq<Value>, newKey: Value, newValue: Value)
    requires Covers(entries, contents)
    ensures keysToRemove == ToRemove(entries, contents, editKey, editValue, minus, |entries|)
    ensures (newKey, newValue) == NewPair(entries, contents, editKey, editValue, |entries|)
  {
    keysToRemove, newKey, newValue := [], Null, Null;
    var i := 0;
    while i < |entries|
      invariant 0 <= i <= |entries|
      invariant keysToRemove == ToRemove(entries, contents, editKey, editValue, minus, i)
      invariant (newKey, newValue) == NewPair(entries, contents, editKey, editValue, i)
    {
      var key := entries[i];
      var value := contents[key];
      var newKeyValue := editKey(i, key);
      var newEntryValue := editValue(i, value);
      if i in minus {
        keysToRemove := keysToRemove + [key];
      }
      if newKeyValue != key || newEntryValue != value {
        keysToRemove := keysToRemove + [key];
        newKey := newKeyValue;
        newValue := newEntryValue;
      }
      i := i + 1;
    }
  }

  /** One more removal, followed by the reinsertion of the new key. */
  lemma AfterRemovalsStep(m: map<Value, Value>, rs: seq<Value>, k: Value, newKey: Value, newValue: Value)
    ensures newKey != Null ==>
              AfterRemovals(m, rs + [k], newKey, newValue) == (AfterRemovals(m, rs, newKey, newValue) - {k})[newKey := newValue]
    ensures newKey == Null ==>
              AfterRemovals(m, rs + [k], newKey, newValue) == AfterRemovals(m, rs, newKey, newValue) - {k}
  {
    var before := map x | x in m && x !in rs :: m[x];
    var after := map x | x in m && x !in rs + [k] :: m[x];
    assert after == before - {k};
  }

  /** The second loop of DrawDictionaryField: remove every collected key,
      each removal followed by `dictionary[newKey] = newValue` when newKey
      is not null. */
  method ApplyRemovals(d: NetDictionary, keysToRemove: seq<Value>, newKey: Value, newValue: Value)
    requires d.Valid()
    modifies d
    ensures d.Valid()
    ensures d.contents == AfterRemovals(old(d.contents), keysToRemove, newKey, newValue)
  {
    ghost var m0 := d.contents;
    assert AfterRemovals(m0, [], newKey, newValue) == m0;
    var j := 0;
    while j < |keysToRemove|
      invariant 0 <= j <= |keysToRemove|
      invariant d.Valid()
      invariant d.contents == AfterRemovals(m0, keysToRemove[..j], newKey, newValue)
    {
      AfterRemovalsStep(m0, keysToRemove[..j], keysToRemove[j], newKey, newValue);
      assert keysToRemove[..j + 1] == keysToRemove[..j] + [keysToRemove[j]];
      d.Remove(keysToRemove[j]);
      if newKey != Null {
        d.SetItem(newKey, newValue);
      }
      j := j + 1;
    }
    assert keysToRemove[..j] == keysToRemove;
  }

  /**
    DrawDictionaryField on a non-null dictionary, which it edits in place
    and returns. An exception from "Add Entry" leaves the merged edits in
    place.
  */
  method DrawDictionaryField(d: NetDictionary, keyType: TypeDesc, valueType: TypeDesc,
                             editKey: (nat, Value) -> Value, editValue: (nat, Value) -> Value,
                             minus: set<nat>, addEntry: bool)
    returns (r: Result<NetDictionary>)
    requires d.Valid()
    modifies d
    ensures d.Valid()
    ensures Covers(old(d.keys), old(d.contents))
    ensures !addEntry ==> r == Ok(d) && d.contents == Merged(old(d.keys), old(d.contents), editKey, editValue, minus)
    ensures addEntry ==>
              var added := AddEntry(Merged(old(d.keys), old(d.contents), editKey, editValue, minus), keyType, valueType);
              (added.Ok? ==> r == Ok(d) && d.contents == added.value) &&
              (added.Err? ==> r == Err(added.error) &&
                              d.contents == Merged(old(d.keys), old(d.contents), editKey, editValue, minus))
  {
    var keysToRemove, newKey, newValue := ScanEntries(d.keys, d.contents, editKey, editValue, minus);
    ApplyRemovals(d, keysToRemove, newKey, newValue);
    if addEntry {
      var added := d.Add(NewElement(keyType), NewElement(valueType));
      if added.Err? {
        return Err(added.error);
      }
    }
    return Ok(d);
  }

  /** An entry that was neither deleted nor changed keeps its value, unless
      the last change moved a value onto its key. */
  lemma SurvivorsUnchanged(ks: seq<Value>, m: map<Value, Value>, editKey: (nat, Value) -> Value,
                           editValue: (nat, Value) -> Value, minus: set<nat>, i: nat)
    requires Covers(ks, m) && Distinct(ks) && i < |ks|
    requires i !in minus && !Changed(ks, m, editKey, editValue, i)
    requires ks[i] != NewPair(ks, m, editKey, editValue, |ks|).0
    ensures ks[i] in Merged(ks, m, editKey, editValue, minus)
    ensures Merged(ks, m, editKey, editValue, minus)[ks[i]] == m[ks[i]]
  {
    var rs := ToRemove(ks, m, editKey, editValue, minus, |ks|);
    assert ks[i] !in rs;
  }

  /** After a change, the new key of the last changed entry holds that
      entry's new value. */
  lemma LastChangeWins(ks: seq<Value>, m: map<Value, Value>, editKey: (nat, Value) -> Value,
                       editValue: (nat, Value) -> Value, minus: set<nat>, c: nat)
    requires Covers(ks, m) && c < |ks| && Changed(ks, m, editKey, editValue, c)
    requires forall i :: c < i < |ks| ==> !Changed(ks, m, editKey, editValue, i)
    requires editKey(c, ks[c]) != Null
    ensures editKey(c, ks[c]) in Merged(ks, m, editKey, editValue, minus)
    ensures Merged(ks, m, editKey, editValue, minus)[editKey(c, ks[c])] == editValue(c, m[ks[c]])
  {
    assert ks[c] in ToRemove(ks, m, editKey, editValue, minus, |ks|);
  }

  /** The key of a deleted or changed entry is gone, unless it is the new key. */
  lemma RemovedUnlessNewKey(ks: seq<Value>, m: map<Value, Value>, editKey: (nat, Value) -> Value,
                            editValue: (nat, Value) -> Value, minus: set<nat>, i: nat)
    requires Covers(ks, m) && i < |ks|
    requires i in minus || Changed(ks, m, editKey, editValue, i)
    ensures ks[i] in Merged(ks, m, editKey, editValue, minus) ==>
              ks[i] == NewPair(ks, m, editKey, editValue, |ks|).0
  {
    assert ks[i] in ToRemove(ks, m, editKey, editValue, minus, |ks|);
  }

  /** Nothing is added back that was not there or was not the new key. */
  lemma MergedKeys(ks: seq<Value>, m: map<Value, Value>, editKey: (nat, Value) -> Value,
                   editValue: (nat, Value) -> Value, minus: set<nat>)
    requires Covers(ks, m)
    ensures forall k :: k in Merged(ks, m, editKey, editValue, minus) ==>
              k in m || k == NewPair(ks, m, editKey, editValue, |ks|).0
  {
  }

  /** With no button pressed and no edit the dictionary is left as it was. */
  lemma UntouchedDictionary(ks: seq<Value>, m: map<Value, Value>, editKey: (nat, Value) -> Value,
                            editValue: (nat, Value) -> Value, minus: set<nat>)
    requires Covers(ks, m) && (forall k :: k in m ==> k in ks)
    requires forall i :: 0 <= i < |ks| ==> i !in minus && !Changed(ks, m, editKey, editValue, i)
    ensures Merged(ks, m, editKey, editValue, minus) == m
  {
  }

  /** "Add Entry" on a dictionary with reference-type keys always raises;
      with value-type keys it raises once the zero key is present. */
  lemma AddEntryErrors(m: map<Value, Value>, keyType: TypeDesc, valueType: TypeDesc)
    ensures !IsValueType(keyType) ==> AddEntry(m, keyType, valueType) == Err(ArgumentNull)
    ensures IsValueType(keyType) && ZeroValue(keyType) in m ==> AddEntry(m, keyType, valueType) == Err(DuplicateKey)
    ensures IsValueType(keyType) && ZeroValue(keyType) !in m ==>
              AddEntry(m, keyType, valueType) == Ok(m[ZeroValue(keyType) := NewElement(valueType)])
  {
  }
}
