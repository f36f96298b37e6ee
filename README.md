# Jobs inspector: a Dafny model

This project models the core of a Unity package built around a `Jobs`
component. The component holds an ordered list of slots, and each slot holds
an optional job script. The model covers:

- The `Jobs` component (`Jobs.cs`): adding and removing slots, and running
  every script either in list order or all at once, with one flag that
  refuses a second run while one is going. It also covers the query that
  asks whether any script is still executing.
- The job registry (`JobTypeRegistry.cs`): it finds the concrete job types,
  gives each a description and a category (with defaults), sorts them by
  category and then by name, and caches the list on first use. It also
  covers the picker's search and category queries.
- The custom inspector (`Editor/ComponentListExampleEditor.cs`):
  - Moving a slot up or down together with its expand ("foldout") flag.
  - Copy and paste through a one-slot, process-wide clipboard.
  - The member-by-member script copy that copy and paste use.
  - Adding a picked job.
  - DrawField, the generic field editor: its null handling, its
    type-dispatch cascade, and the dictionary, hash-set, collection, tuple,
    `DateTime` and `TimeSpan` editors.

User input and the nested editors are parameters of the model:

- What the nested editor returns for element `i` is a function `edit(i, v)`.
- The "-" buttons pressed in one pass are a set of row indices.
- The "+", "Add Element", "Add Entry" and "Create Instance" buttons are
  booleans.
- What a script's `ExecuteAsync` does is reduced to whether it faults
  (`throws`).

Reflection becomes the `TypeDesc` datatype. The questions the code asks of a
`Type` are answered by the shape of that datatype.

The source's classes become Dafny classes:

- `Jobs`: the slot list is a `seq`, plus the single-flight flag.
- The registry: its static cache.
- The inspector: its `foldouts` array, rebuilt as a fresh array the way the
  source rebuilds it.
- The clipboard.
- The collection and dictionary objects that the field editors change in
  place.

Pure computations become functions, and the properties are lemmas about
those functions.

Where the code and what its names promise disagree, the model follows the
code:

- The method is named `DeepCopyScript`, but the copy is shallow: a member
  that holds a reference is shared with the copy.
- Queue and stack fields are sent to the list editor, which cannot handle
  them (finding F2).
- `System.Tuple` fields raise instead of being rebuilt (finding F4).

## Model

| member | source | states |
|---|---|---|
| Lists.RemoveAt | Jobs.cs:17-23 | `List.RemoveAt`: the length drops by one, earlier elements stay, later ones shift down by one |
| Lists.Insert | Editor/ComponentListExampleEditor.cs:265 | `List.Insert`: the new element sits at the index, earlier elements stay, later ones shift up by one |
| Lists.Move | Editor/ComponentListExampleEditor.cs:263-265 | the definition of a move (RemoveAt, then Insert of the removed slot); what it does to every index is stated by Lists.MoveAt and Lists.MovePermutes |
| Lists.MoveAt | Editor/ComponentListExampleEditor.cs:263-265 | remove-then-insert puts the moved slot at the target, slides the slots strictly between the two positions by one towards the source, and leaves every other slot in place |
| Lists.MovePermutes | Editor/ComponentListExampleEditor.cs:263-265 | a move keeps the multiset of slots (a permutation) |
| Lists.MoveSelf | Editor/ComponentListExampleEditor.cs:263-265 | moving a slot onto its own position is the identity |
| Lists.MoveBack | Editor/ComponentListExampleEditor.cs:263-265 | moving back undoes a move |
| Lists.RemoveAtMultiset | Jobs.cs:21 | removing one slot removes exactly one occurrence of it and keeps all the others |
| JobContainer.ScriptIndices | Jobs.cs:33-40 | the indices of the slots that hold a script, strictly increasing, each a scripted slot, and no scripted slot missing |
| JobContainer.Faulted | Jobs.cs:56-60 | an index is reported as faulted iff it was started and its script throws |
| JobContainer.AnyExecuting | Jobs.cs:84 | true iff some slot holds a script whose IsExecuting is set; an empty slot counts as not executing |
| JobContainer.RunInOrder | Jobs.cs:31-41 | scripts run in list order and empty slots are skipped; without a fault every scripted slot ran and none threw; a fault stops the run at the faulting slot, and every slot before it ran cleanly |
| JobContainer.Jobs.constructor | Jobs.cs:9-10 | starts with no slots and not executing |
| JobContainer.Jobs.AddComponent | Jobs.cs:12-15 | appends one slot holding the script, which may be null; nothing else changes |
| JobContainer.Jobs.RemoveComponent | Jobs.cs:17-23 | an index inside the list removes that slot; any other index changes nothing |
| JobContainer.Jobs.ExecuteAllSequential | Jobs.cs:26-46 | a call while running does nothing and leaves the flag set; otherwise it runs like RunInOrder over the slot list and clears the flag however the run ends; the list is unchanged |
| JobContainer.Jobs.ExecuteAllParallel | Jobs.cs:49-66 | a call while running does nothing; otherwise every scripted slot is started, the faulted ones are exactly the started ones that throw, and the flag is cleared |
| JobContainer.Jobs.AreScriptsExecuting | Jobs.cs:82-85 | true iff some slot's script reports IsExecuting |
| Text.StrLeqTotal | JobTypeRegistry.cs:60-61 | the ordinal string order used for sorting is total |
| Text.StrLeqTransitive | JobTypeRegistry.cs:60-61 | the ordinal string order is transitive |
| Text.StrLeqAntisymmetric | JobTypeRegistry.cs:60-61 | the ordinal string order is antisymmetric |
| Text.EqualsIgnoreCaseEquivalence | JobTypeRegistry.cs:32 | OrdinalIgnoreCase equality is reflexive, symmetric and transitive |
| Text.ContainsIgnoreCaseBasics | JobTypeRegistry.cs:34-35 | every string contains the empty string and itself, ignoring case |
| Queries.Where | JobTypeRegistry.cs:31-36 | `Where` keeps the elements that pass and no other, as a subsequence of the input (their original order) |
| Queries.WhereMultiset | JobTypeRegistry.cs:31-36 | `Where` keeps each passing element as many times as it occurs in the input, and no failing element at all |
| Queries.WhereAll | JobTypeRegistry.cs:31-36 | a filter that every element passes returns the input unchanged |
| Queries.Distinct | JobTypeRegistry.cs:43 | `Distinct` keeps the same members and has no duplicates |
| Queries.OrderByKey | JobTypeRegistry.cs:60-61 | `OrderBy`/`ThenBy` gives a sorted permutation of its input |
| Queries.SubsequenceSorted | JobTypeRegistry.cs:30-36 | a filtered subsequence of a sorted list is sorted |
| JobTypeRegistry.DefaultMetadata | JobTypeRegistry.cs:65-75 | without the attribute the description is "No description available." and the category is "General"; an attribute given without a category reports "General" |
| JobTypeRegistry.GetJobDescription | JobTypeRegistry.cs:65-69 | the attribute's description, or the default text without one; its defaults are stated by JobTypeRegistry.DefaultMetadata |
| JobTypeRegistry.GetJobCategory | JobTypeRegistry.cs:71-75 | the attribute's category, or "General" without one; stated by JobTypeRegistry.DefaultMetadata |
| JobTypeRegistry.InitializeJobTypes | JobTypeRegistry.cs:48-63 | the registry pipeline (filter, describe, order by category then name); its contents and order are stated by InitializeJobTypesContents and InitializeJobTypesSorted |
| JobTypeRegistry.InitializeJobTypesContents | JobTypeRegistry.cs:48-63 | the registry holds one descriptor per concrete IJob type (neither interface nor abstract), with multiplicity, and nothing else; each descriptor describes its own type |
| JobTypeRegistry.InitializeJobTypesSorted | JobTypeRegistry.cs:60-61 | the registry list is ordered by category and, within a category, by name |
| JobTypeRegistry.SearchWithoutFilters | JobTypeRegistry.cs:28-37 | an empty term and an empty category return the whole registry |
| JobTypeRegistry.MatchingJobs | JobTypeRegistry.cs:28-37 | the SearchJobs filter over the registry list; its results are stated by SearchResults, SearchWithoutFilters and SearchResultsSorted |
| JobTypeRegistry.SearchResults | JobTypeRegistry.cs:28-37 | the results are exactly the registry entries whose category equals the filter and whose name or description contains the term (both ignoring case; an empty filter accepts all), each as many times as the registry holds it, kept in registry order |
| JobTypeRegistry.SearchResultsSorted | JobTypeRegistry.cs:28-37 | search results keep the category-then-name order |
| JobTypeRegistry.CategoriesExact | JobTypeRegistry.cs:39-46 | GetCategories lists a string iff some job has that category, each once, in strictly ascending order |
| JobTypeRegistry.DistinctCategories | JobTypeRegistry.cs:39-46 | Select, Distinct and OrderBy over the categories; its result is stated by CategoriesExact |
| JobTypeRegistry.DistinctPermutation | JobTypeRegistry.cs:43-44 | sorting a duplicate-free list keeps it duplicate-free |
| JobTypeRegistry.Registry.constructor | JobTypeRegistry.cs:17 | the cache starts empty |
| JobTypeRegistry.Registry.GetAllJobTypes | JobTypeRegistry.cs:19-26 | the first call fills the cache with InitializeJobTypes; every call returns the cached list; a filled cache is never replaced |
| JobTypeRegistry.Registry.SearchJobs | JobTypeRegistry.cs:28-37 | returns the registry entries that match, and leaves the cache filled |
| JobTypeRegistry.Registry.GetCategories | JobTypeRegistry.cs:39-46 | returns the distinct, sorted categories of the registry, and leaves the cache filled |
| ListEditing.DeepCopyScript | Editor/ComponentListExampleEditor.cs:233-256 | null copies to null; otherwise the copy is the new instance with every public field and every readable and writable property set to the original's value, while the other properties keep the new instance's values |
| ListEditing.IsMemberCopy | Editor/ComponentListExampleEditor.cs:233-256 | what a member copy is: the new instance with every public field and every read/write property taken from the original; DeepCopyScript is proved to produce one |
| ListEditing.MemberCopyOfReadWrite | Editor/ComponentListExampleEditor.cs:240-253 | when every property is readable and writable, the copy equals the original |
| ListEditing.MemberCopySameType | Editor/ComponentListExampleEditor.cs:237-238 | the copy is of the original's type |
| ListEditing.CopyOf | Editor/ComponentListExampleEditor.cs:268-269 | `Array.Copy` into a new array gives a fresh array with the same flags |
| ListEditing.SlideDown | Editor/ComponentListExampleEditor.cs:271-275 | the downward loop shifts the flags between the two positions one step towards the source |
| ListEditing.SlideUp | Editor/ComponentListExampleEditor.cs:276-280 | the upward loop shifts the flags between the two positions one step towards the source |
| ListEditing.MovedFoldouts | Editor/ComponentListExampleEditor.cs:267-282 | the new flag array is the old one permuted exactly as the slot list is (Lists.Move on the same indices) |
| ListEditing.Clipboard.constructor | Editor/ComponentListExampleEditor.cs:17 | the clipboard starts empty |
| ListEditing.ComponentListExampleEditor.constructor | Editor/ComponentListExampleEditor.cs:20-23 | one collapsed flag per slot |
| ListEditing.ComponentListExampleEditor.SyncFoldouts | Editor/ComponentListExampleEditor.cs:39-42 | flags of the wrong length become a fresh array of collapsed flags; flags of the right length are kept |
| ListEditing.ComponentListExampleEditor.MoveComponent | Editor/ComponentListExampleEditor.cs:258-285 | a target index outside the list changes nothing; otherwise the slot list and the flags are moved the same way, so every slot keeps its flag |
| ListEditing.ComponentListExampleEditor.CopyComponent | Editor/ComponentListExampleEditor.cs:209-215 | the clipboard holds a member copy of the slot's script, or an empty slot for an empty one |
| ListEditing.ComponentListExampleEditor.PasteComponent | Editor/ComponentListExampleEditor.cs:217-231 | an empty clipboard changes nothing; otherwise a member copy of the held script is appended, the clipboard is kept, and only the new slot is expanded |
| ListEditing.ComponentListExampleEditor.AddSelectedJob | Editor/ComponentListExampleEditor.cs:191-199 | the new instance is appended and only its slot is expanded |
| FieldTypes.ZeroValue | Editor/ComponentListExampleEditor.cs:312-315 | `Activator.CreateInstance` of a value type is never null |
| FieldTypes.NewElement | Editor/ComponentListExampleEditor.cs:628 | a new element is null iff its type is not a value type |
| FieldDispatch.Dispatch | Editor/ComponentListExampleEditor.cs:307-463 | a null value gets the "Create Instance" prompt iff its type is a reference type; a null value of a value type is drawn as a non-null one would be |
| FieldDispatch.Cascade | Editor/ComponentListExampleEditor.cs:329-463 | the type tests of DrawField in source order, first match wins; what each type reaches is stated by CascadeOwner and the lemmas after it |
| FieldDispatch.Substituted | Editor/ComponentListExampleEditor.cs:310-315 | a non-null value is kept; the result is null iff the value was null and its type is a reference type |
| FieldDispatch.CascadeOwner | Editor/ComponentListExampleEditor.cs:329-463 | in the first-match cascade every kind of type reaches the editor of its own kind (an order-free table) |
| FieldDispatch.CustomClassShadowed | Editor/ComponentListExampleEditor.cs:454-459 | the custom-class editor gets exactly the plain classes, `object` and the zero-arity tuple; curves, gradients, containers and tuples pass its test too but lose to the earlier branches |
| FieldDispatch.QueueStackUseCollectionDrawer | Editor/ComponentListExampleEditor.cs:405-417 | the collection editor gets exactly queues, stacks, arrays and lists |
| FieldDispatch.ReadOnlyFallback | Editor/ComponentListExampleEditor.cs:461-463 | exactly Unity objects, interfaces, value tuples and other structs fall through to the read-only label |
| FieldDispatch.CreateInstance | Editor/ComponentListExampleEditor.cs:320-323 | raises MissingMethod iff the type is a string, an array, a tuple, an interface, or a class without a parameterless constructor; otherwise it returns a non-null instance |
| FieldDispatch.PromptLeadsToOwner | Editor/ComponentListExampleEditor.cs:310-327 | without a press the field stays null and is prompted again on the next pass; a press that creates an instance hands the field to the editor of its own type on the next pass (DrawNullReference is the branch itself) |
| FieldDispatch.NullStringPromptRaises | Editor/ComponentListExampleEditor.cs:318-322 | a null string field shows the prompt, and pressing it raises |
| FieldDispatch.CreateInstanceFixed | Editor/ComponentListExampleEditor.cs:318-322 | the corrected prompt yields null only for interfaces and classes without a parameterless constructor |
| FieldDispatch.CreatedValueIsEditable | Editor/ComponentListExampleEditor.cs:354-355 | a string, array or tuple made by the corrected prompt is non-null and reaches its own editor on the next pass |
| FieldDispatch.CreateInstanceFixedAgrees | Editor/ComponentListExampleEditor.cs:320-323 | wherever CreateInstance succeeds, the corrected prompt builds the same value |
| TimeDrawers.QuotTruncates | Editor/ComponentListExampleEditor.cs:444-448 | C# long division truncates toward zero: the quotient has the dividend's sign and its magnitude is the largest count of whole divisors that fit into the dividend's magnitude |
| TimeDrawers.Rem | Editor/ComponentListExampleEditor.cs:444-448 | C# remainder: dividend = divisor × quotient + remainder, with the remainder taking the dividend's sign |
| TimeDrawers.Hours | Editor/ComponentListExampleEditor.cs:444 | TimeSpan.Hours lies in [0, 24) for a non-negative span and in (-24, 0] for a negative one |
| TimeDrawers.Minutes | Editor/ComponentListExampleEditor.cs:446 | TimeSpan.Minutes lies in [0, 60) and carries the sign of the span |
| TimeDrawers.Seconds | Editor/ComponentListExampleEditor.cs:448 | TimeSpan.Seconds lies in [0, 60) and carries the sign of the span |
| TimeDrawers.Days | Editor/ComponentListExampleEditor.cs:441 | TimeSpan.Days carries the sign of the span |
| TimeDrawers.SubSecond | Editor/ComponentListExampleEditor.cs:441 | the ticks below a second lie in [0, 10^7) and carry the sign of the span |
| TimeDrawers.HmsRoundTrip | Editor/ComponentListExampleEditor.cs:451 | `new TimeSpan(h, m, s)` for hours, minutes and seconds within a day, all of one sign, succeeds and builds a span whose Hours, Minutes and Seconds are h, m and s, with no days and no fraction |
| TimeDrawers.Decompose | Editor/ComponentListExampleEditor.cs:441-448 | every tick count, including long.MinValue, is the sum of its days, hours, minutes, seconds and sub-second ticks |
| TimeDrawers.DrawTimeSpanAsWritten | Editor/ComponentListExampleEditor.cs:438-452 | the TimeSpan branch as written, rebuilding from the three int fields; its loss is stated by RedrawDropsDaysAndFraction |
| TimeDrawers.RedrawDropsDaysAndFraction | Editor/ComponentListExampleEditor.cs:438-452 | an untouched redraw as written returns the span minus its days and its sub-second ticks |
| TimeDrawers.RedrawCounterexamples | Editor/ComponentListExampleEditor.cs:438-452 | one day, and 5000 ticks, both redraw to zero |
| TimeDrawers.DrawTimeSpan | Editor/ComponentListExampleEditor.cs:438-452 | the corrected editor: the edited hours, minutes and seconds added to the old days and fraction, with ArgumentOutOfRange outside the 64-bit range; its properties are stated by DrawTimeSpanComponents, RedrawKeepsTimeSpan and EditHoursShifts |
| TimeDrawers.DrawTimeSpanComponents | Editor/ComponentListExampleEditor.cs:444-451 | with the correction, fields edited within a day and with the value's sign give a span with the old days and fraction and exactly the edited hours, minutes and seconds; it overflows only within a day of either end of the 64-bit range |
| TimeDrawers.RedrawKeepsTimeSpan | Editor/ComponentListExampleEditor.cs:438-452 | with the correction, an untouched redraw returns the same span for every value |
| TimeDrawers.EditHoursShifts | Editor/ComponentListExampleEditor.cs:444 | with the correction, editing the hours field moves the span by exactly that many hours |
| TimeDrawers.DrawDateTime | Editor/ComponentListExampleEditor.cs:425-436 | the DateTime branch: the edited text replaces the value only when it parses, otherwise the old value is kept; the text format and the parser are parameters |
| TimeDrawers.UntouchedDateTime | Editor/ComponentListExampleEditor.cs:425-436 | when parsing the whole-second text gives the value truncated to the second, an untouched redraw keeps a whole-second value and drops the fraction of any other |
| CollectionDrawers.FirstPressed | Editor/ComponentListExampleEditor.cs:640-646 | finds the first row whose "-" was pressed, or reports that none was |
| CollectionDrawers.ListPass | Editor/ComponentListExampleEditor.cs:640-648 | the list loop: rows before the first pressed "-" edited, that row dropped, the rows after it unedited; stated by MinusRemoves and UntouchedCollection, and met by DrawHashSetList |
| CollectionDrawers.CollectionEdit | Editor/ComponentListExampleEditor.cs:615-654 | what one pass of the collection editor makes of the items; stated by ArrayKeepsLength, PlusAppends, MinusRemoves and UntouchedCollection, and met by Collection.EditElements |
| CollectionDrawers.ArrayKeepsLength | Editor/ComponentListExampleEditor.cs:626-648 | an array keeps its length, and each element is what its editor returned |
| CollectionDrawers.PlusAppends | Editor/ComponentListExampleEditor.cs:626-630 | "+" appends one element, which is drawn in the same pass |
| CollectionDrawers.MinusRemoves | Editor/ComponentListExampleEditor.cs:642-646 | "-" on row k drops that row; the rows before it are edited and the rows after it shift down unedited |
| CollectionDrawers.UntouchedCollection | Editor/ComponentListExampleEditor.cs:615-654 | with no button and no edit, the collection is unchanged |
| CollectionDrawers.Collection.constructor | Editor/ComponentListExampleEditor.cs:615 | a collection object of the given kind and elements |
| CollectionDrawers.Collection.EditElements | Editor/ComponentListExampleEditor.cs:626-648 | the in-place loop leaves exactly the elements CollectionEdit computes |
| CollectionDrawers.DrawCollectionField | Editor/ComponentListExampleEditor.cs:615-654 | a queue or a stack raises InvalidCast and is left untouched; an array or a list is edited in place and returned |
| CollectionDrawers.DrawCollectionFieldFixed | Editor/ComponentListExampleEditor.cs:615-654 | the corrected editor edits every collection kind in place, with no cast failure |
| CollectionDrawers.DrawHashSetList | Editor/ComponentListExampleEditor.cs:529-551 | the set's elements go through the list loop, and "Add Element" appends the default element |
| CollectionDrawers.HashSetOfIntRaises | Editor/ComponentListExampleEditor.cs:555 | the rebuild as written (RebuildHashSetAsWritten) raises MissingMethod for `HashSet<int>` and for every element type other than `object`, whatever the input |
| CollectionDrawers.RebuildHashSet | Editor/ComponentListExampleEditor.cs:555 | the corrected rebuild holds exactly the edited elements, and at most as many as the list |
| CollectionDrawers.UntouchedHashSet | Editor/ComponentListExampleEditor.cs:525-556 | with the corrected rebuild, an untouched set comes back with the same members |
| CollectionDrawers.DrawTupleField | Editor/ComponentListExampleEditor.cs:655-688 | the loop reads each component, draws it, and rebuilds the tuple exactly when a drawn value differs; reading past the member list raises IndexOutOfRange |
| CollectionDrawers.TupleResult | Editor/ComponentListExampleEditor.cs:661-686 | the outcome of the tuple loop: IndexOutOfRange past the member list, otherwise the original unless a component changed; stated by TupleAsWrittenRaises and TupleRebuiltOnlyOnChange, and met by DrawTupleField |
| CollectionDrawers.TupleAsWrittenRaises | Editor/ComponentListExampleEditor.cs:661-670 | as written, every non-empty System.Tuple raises IndexOutOfRange on its first component |
| CollectionDrawers.TupleRebuiltOnlyOnChange | Editor/ComponentListExampleEditor.cs:655-688 | read through its Item properties, a tuple is kept iff no component changed, and is otherwise rebuilt from the drawn values component by component |
| DictionaryDrawer.Without | Editor/ComponentListExampleEditor.cs:503 | removing a key from the enumeration order leaves every other key |
| DictionaryDrawer.NetDictionary.constructor | Editor/ComponentListExampleEditor.cs:467 | an empty dictionary |
| DictionaryDrawer.NetDictionary.Remove | Editor/ComponentListExampleEditor.cs:503 | `Remove` takes the key out (a missing key is no error) and keeps the dictionary well formed |
| DictionaryDrawer.NetDictionary.SetItem | Editor/ComponentListExampleEditor.cs:504-507 | the indexer overwrites or adds the key |
| DictionaryDrawer.NetDictionary.Add | Editor/ComponentListExampleEditor.cs:512-515 | `Add` raises ArgumentNull for a null key and DuplicateKey for a key already present, changing nothing in either case; otherwise it adds the pair to the contents |
| DictionaryDrawer.ToRemove | Editor/ComponentListExampleEditor.cs:487-498 | a key is collected for removal iff its entry's "-" was pressed or its entry was changed |
| DictionaryDrawer.LastChanged | Editor/ComponentListExampleEditor.cs:493-498 | finds the last changed entry, or reports that none changed |
| DictionaryDrawer.NewPair | Editor/ComponentListExampleEditor.cs:493-498 | (newKey, newValue) from the last changed entry, or (null, null); met by ScanEntries and used by LastChangeWins and MergedKeys |
| DictionaryDrawer.AfterRemovals | Editor/ComponentListExampleEditor.cs:501-508 | the contents after removing each collected key, each removal followed by setting the new key; met by ApplyRemovals |
| DictionaryDrawer.Merged | Editor/ComponentListExampleEditor.cs:501-508 | the contents after the edit pass; stated by SurvivorsUnchanged, LastChangeWins, RemovedUnlessNewKey, MergedKeys and UntouchedDictionary, and met by DrawDictionaryField |
| DictionaryDrawer.AddEntry | Editor/ComponentListExampleEditor.cs:510-516 | "Add Entry" on the merged contents: Add of the default key and value; its outcomes are stated by AddEntryErrors |
| DictionaryDrawer.ScanEntries | Editor/ComponentListExampleEditor.cs:481-499 | the drawing loop collects exactly ToRemove and the edits of the last changed entry |
| DictionaryDrawer.ApplyRemovals | Editor/ComponentListExampleEditor.cs:501-508 | the removal loop leaves AfterRemovals of the old contents and keeps the dictionary well formed |
| DictionaryDrawer.DrawDictionaryField | Editor/ComponentListExampleEditor.cs:465-523 | the dictionary is edited in place to the merged contents; "Add Entry" then adds the default pair or raises as Add does, and the merged edits stay when it raises |
| DictionaryDrawer.SurvivorsUnchanged | Editor/ComponentListExampleEditor.cs:481-508 | an entry that was neither deleted nor changed keeps its value, unless the new key overwrote it |
| DictionaryDrawer.LastChangeWins | Editor/ComponentListExampleEditor.cs:493-507 | after changes, the last changed entry's new key holds its new value |
| DictionaryDrawer.RemovedUnlessNewKey | Editor/ComponentListExampleEditor.cs:487-507 | a deleted or changed key is gone, unless it is the new key |
| DictionaryDrawer.MergedKeys | Editor/ComponentListExampleEditor.cs:501-508 | the only key the pass can add is the new key |
| DictionaryDrawer.UntouchedDictionary | Editor/ComponentListExampleEditor.cs:465-508 | with no button and no edit, the contents are unchanged |
| DictionaryDrawer.AddEntryErrors | Editor/ComponentListExampleEditor.cs:510-516 | "Add Entry" always raises ArgumentNull for reference-type keys; for value-type keys it raises DuplicateKey iff the zero key is present, and otherwise adds the zero key with the default value |

## Left out

- The Unity UI itself is a parameter, not a model: layout, styles, labels, indenting, `GUI.changed`/`SetDirty` and the serialized object. Only the value each widget returns is modelled.
- The asynchrony of `ExecuteAsync` is reduced to the order of the calls and whether each one faults. This covers `await`, `Task.WhenAll` and `StartExecution`'s fire-and-forget. Interleaving of the parallel tasks, the time a run takes, and a slot list changing during a run are not modelled.
- Reflection is replaced by `TypeDesc` and by the `blank` and `created` instance parameters. Assembly scanning is the registry's `assemblyTypes` constant.
- The float `Slider` and `IntSlider` branches are not modelled. `GetRangeAttribute` looks the field name up as a member of the field's own type, not of the declaring job, so the fields of these jobs never carry a range there. Floats, doubles, the Unity vector, rect, bounds and color structs, `LayerMask` and `Matrix4x4` are opaque composite values.
- `DrawBasicTypes` and `DrawMatrix4x4Field` are not modelled. Nothing calls them.
- `DrawCustomClassField` and `DrawScriptProperties` are not modelled: nested record editing is an application of `edit` at the call site. Because of that, record values are not edited through shared references.
- Aliasing is not modelled. Values are compared structurally, but `object.Equals` on a reference-type member is reference equality. The copy being shallow (a shared member) appears only as copying values.
- ListEditing.DeepCopyScript: does not model that the source shares a referenced sub-object between the original and the copy, because values in this model have no identity.
- TimeDrawers.DrawDateTime: `DateTime.ToString`/`TryParse` are parameters, so what the text round trip loses (sub-second ticks, `Kind`) is not derived.
- TimeDrawers.UntouchedDateTime: its conclusion follows from its own assumption about formatting and parsing (that parsing the shown text gives the value truncated to the second); it proves nothing about .NET's DateTime format.
- TimeDrawers.DrawTimeSpanComponents: says nothing about fields edited past a day or against the value's sign (24 hours on a zero span gives one day), where the corrected editor carries into the other components.
- ListEditing.DeepCopyScript: the flag IsExecuting is copied because every job declares it `{ get; private set; }`, which reflection reports as writable and sets through the private setter; a job whose IsExecuting had no setter would keep the new instance's flag, which the model does not capture.
- The enumeration order of a .NET `Dictionary` after removals (free slots are reused) is kept only as "some order of the keys". Appends go to the end.
- JobTypeRegistry.InitializeJobTypesSorted: the model sorts with ordinal string order, while `OrderBy`/`ThenBy` on strings use the current culture's comparer; with mixed case the orders differ.
- JobTypeRegistry.SearchResultsSorted: states the ordinal category-then-name order, not the culture order of the source.
- JobTypeRegistry.CategoriesExact: "strictly ascending" is ordinal order; `OrderBy(c => c)` uses the culture comparer, so the categories "apple" and "Banana" come out as ["apple", "Banana"] in the source and as ["Banana", "apple"] in the model.
- JobTypeRegistry.Registry.GetCategories: returns the ordinal order, for the same reason as CategoriesExact.
- Queries.OrderByKey: states a sorted permutation only; that `OrderBy` is stable (equal keys keep their input order) is not stated, and the comparer is ordinal.
- Case folding in the OrdinalIgnoreCase comparisons covers ASCII letters only. OrdinalIgnoreCase also folds other Unicode letters.
- A null string and the empty string are one value in the search filters (`string.IsNullOrEmpty`). Elsewhere a null field is `Null` and an empty one is `Str("")`.
- `Nullable<T>` fields are not modelled. A `System.Tuple` of more than seven components, whose last component is a nested tuple (`TRest`), is modelled like any other tuple: one flat list of component types.
- The example jobs under `Jobs/` and the `IJob` interface are not part of this model.

## Findings

| source | as written | input that shows it | evidently intended | confidence | as-written member | corrected member |
|---|---|---|---|---|---|---|
| Editor/ComponentListExampleEditor.cs:444-451 | the TimeSpan editor rebuilds the value from its Hours, Minutes and Seconds components only | a field holding 1 day (or 5000 ticks) redraws to 0 on the next pass with no input | an untouched field keeps its value; the days and the fraction of a second survive | high; not executed | TimeDrawers.RedrawCounterexamples | TimeDrawers.RedrawKeepsTimeSpan |
| Editor/ComponentListExampleEditor.cs:405-411, 619 | queues and stacks are sent to the collection editor, which casts the value to `IList` | any non-null `Queue<int>` field: `(IList)value` raises InvalidCastException | queues and stacks are edited like lists, as the dispatch branch is meant to do | high; not executed | CollectionDrawers.DrawCollectionField | CollectionDrawers.DrawCollectionFieldFixed |
| Editor/ComponentListExampleEditor.cs:555 | the set is rebuilt with `Activator.CreateInstance(HashSet<T>, List<object>)` | a `HashSet<int>` field: no constructor accepts a `List<object>`, so MissingMethodException on every pass | the set is rebuilt from the edited elements | high; not executed | CollectionDrawers.HashSetOfIntRaises | CollectionDrawers.RebuildHashSet |
| Editor/ComponentListExampleEditor.cs:661-670 | the tuple components are read with `fieldType.GetFields()[i]` | `Tuple<int,string>`: its Item1 and Item2 are properties, the field array is empty, and reading component 0 raises IndexOutOfRangeException | the components are read through Item1..ItemN; the tuple is rebuilt only when one changed | high; not executed | CollectionDrawers.TupleAsWrittenRaises | CollectionDrawers.TupleRebuiltOnlyOnChange |
| Editor/ComponentListExampleEditor.cs:318-322 | "Create Instance" calls `Activator.CreateInstance(fieldType)` for every null reference | a null `string` field of a job made by the "Add" menu: pressing the button raises MissingMethodException (likewise arrays and tuples) | such a field gets an empty value that its own editor can show | medium; not executed | FieldDispatch.NullStringPromptRaises | FieldDispatch.CreatedValueIsEditable |
