/**
  The inspector's operations on the job list: moving a slot up or down
  together with its expand flag, copy and paste through a one-slot
  clipboard, adding a picked job, and the member-by-member script copy
  that copy and paste use.
*/
module ListEditing {
  import opened Common
  import opened JobData
  import opened JobContainer
  import Lists

  /** `copy` is `blank` (a new instance of the original's type) with every
      public field, every public read/write property and the IsExecuting
      flag set to the original's value; the other properties keep the new
      instance's value. */
  ghost predicate IsMemberCopy(copy: Job, original: Job, blank: Job)
    requires SameType(original, blank)
  {
    && copy.kind == original.kind
    && copy.fields == original.fields
    && |copy.props| == |blank.props|
    && (forall i :: 0 <= i < |blank.props| ==>
          copy.props[i] == (if blank.props[i].canRead && blank.props[i].canWrite
                            then blank.props[i].(value := original.props[i].value)
                            else blank.props[i]))
    && copy.isExecuting == original.isExecuting
  }

  /**
    DeepCopyScript: null stays null; otherwise the properties and then the
    fields are copied one by one into `blank`, the instance that
    Activator.CreateInstance made of the original's type. Member values are
    copied as they are, so a member holding a reference is shared.
  */
  method DeepCopyScript(original: Option<Job>, blank: Job) returns (copy: Option<Job>)
    requires original.Some? ==> SameType(original.value, blank)
    ensures original.None? <==> copy.None?
    ensures original.Some? ==> copy.Some? && IsMemberCopy(copy.value, original.value, blank)
  {
    if original.None? {
      return None;
    }
    var source := original.value;
    var target := blank.(isExecuting := source.isExecuting);
    var i := 0;
    while i < |source.props|
      invariant 0 <= i <= |source.props|
      invariant target.kind == blank.kind && target.fields == blank.fields
      invariant target.isExecuting == source.isExecuting
      invariant |target.props| == |blank.props|
      invariant forall j :: 0 <= j < |blank.props| ==>
                  target.props[j] == (if j < i && blank.props[j].canRead && blank.props[j].canWrite
                                      then blank.props[j].(value := source.props[j].value)
                                      else blank.props[j])
    {
      if target.props[i].canRead && target.props[i].canWrite {
        target := target.(props := target.props[i := target.props[i].(value := source.props[i].value)]);
      }
      i := i + 1;
    }
    var k := 0;
    while k < |source.fields|
      invariant 0 <= k <= |source.fields|
      invariant target.kind == blank.kind && target.isExecuting == source.isExecuting
      invariant |target.fields| == |source.fields|
      invariant forall j :: 0 <= j < |source.fields| ==>
                  target.fields[j] == (if j < k then source.fields[j] else blank.fields[j])
      invariant |target.props| == |blank.props|
      invariant forall j :: 0 <= j < |blank.props| ==>
                  target.props[j] == (if blank.props[j].canRead && blank.props[j].canWrite
                                      then blank.props[j].(value := source.props[j].value)
                                      else blank.props[j])
    {
      target := target.(fields := target.fields[k := source.fields[k]]);
      k := k + 1;
    }
    copy := Some(target);
  }

  /** When every property can be read and written, the copy equals the
      original as a value: nothing of the blank instance shows through. */
  lemma MemberCopyOfReadWrite(copy: Job, original: Job, blank: Job)
    requires SameType(original, blank)
    requires forall i :: 0 <= i < |original.props| ==> original.props[i].canRead && original.props[i].canWrite
    requires IsMemberCopy(copy, original, blank)
    ensures copy == original
  {
    assert |copy.props| == |original.props|;
    forall i | 0 <= i < |copy.props| ensures copy.props[i] == original.props[i] {
      assert blank.props[i].canRead && blank.props[i].canWrite;
    }
  }

  /** The copy is again an instance of the original's type. */
  lemma MemberCopySameType(copy: Job, original: Job, blank: Job)
    requires SameType(original, blank)
    requires IsMemberCopy(copy, original, blank)
    ensures SameType(copy, original)
  {
  }

  /** The forward shifting loop of MoveComponent before step `i`: the flags
      at `from` .. `i - 1` have been replaced by their right-hand neighbours. */
  ghost function SlidDown<T>(s: seq<T>, from: nat, i: nat): seq<T>
    requires from <= i < |s|
  {
    s[..from] + s[from + 1..i + 1] + s[i..]
  }

  /** The backward shifting loop before step `i`: the flags at `i + 1` ..
      `from` have been replaced by their left-hand neighbours. */
  ghost function SlidUp<T>(s: seq<T>, i: nat, from: nat): seq<T>
    requires i <= from < |s|
  {
    s[..i + 1] + s[i..from] + s[from + 1..]
  }

  lemma SlidDownStep<T>(s: seq<T>, from: nat, i: nat)
    requires from <= i && i + 1 < |s|
    ensures SlidDown(s, from, i)[i := s[i + 1]] == SlidDown(s, from, i + 1)
  {
    var t := SlidDown(s, from, i)[i := s[i + 1]];
    var u := SlidDown(s, from, i + 1);
    assert |t| == |u|;
    forall j | 0 <= j < |t|
      ensures t[j] == u[j]
    {
      if j < from {
      } else if j <= i {
        assert u[j] == s[j + 1];
      } else {
        assert u[j] == s[j];
      }
    }
  }

  lemma SlidUpStep<T>(s: seq<T>, i: nat, from: nat)
    requires 0 < i <= from < |s|
    ensures SlidUp(s, i, from)[i := s[i - 1]] == SlidUp(s, i - 1, from)
  {
    var t := SlidUp(s, i, from)[i := s[i - 1]];
    var u := SlidUp(s, i - 1, from);
    assert |t| == |u|;
    forall j | 0 <= j < |t|
      ensures t[j] == u[j]
    {
      if j < i {
      } else if j <= from {
        assert u[j] == s[j - 1];
      } else {
        assert u[j] == s[j];
      }
    }
  }

  /** Once the forward loop reaches `to`, writing the saved flag there is a move. */
  lemma SlidDownMove<T>(s: seq<T>, from: nat, to: nat)
    requires from <= to < |s|
    ensures SlidDown(s, from, to)[to := s[from]] == Lists.Move(s, from, to)
  {
    var t := SlidDown(s, from, to)[to := s[from]];
    var m := Lists.Move(s, from, to);
    Lists.MoveAt(s, from, to);
    forall j | 0 <= j < |s|
      ensures t[j] == m[j]
    {
      if j < from {
      } else if j < to {
        assert t[j] == s[j + 1];
      } else if j > to {
        assert t[j] == s[j];
      }
    }
  }

  /** Once the backward loop reaches `to`, writing the saved flag there is a move. */
  lemma SlidUpMove<T>(s: seq<T>, from: nat, to: nat)
    requires to <= from < |s|
    ensures SlidUp(s, to, from)[to := s[from]] == Lists.Move(s, from, to)
  {
    var t := SlidUp(s, to, from)[to := s[from]];
    var m := Lists.Move(s, from, to);
    Lists.MoveAt(s, from, to);
    forall j | 0 <= j < |s|
      ensures t[j] == m[j]
    {
      if j < to {
      } else if j == to {
      } else if j <= from {
        assert t[j] == s[j - 1];
      } else {
        assert t[j] == s[j];
      }
    }
  }

  /** A fresh array holding the same flags (new bool[n] then Array.Copy). */
  method CopyOf(a: array<bool>) returns (b: array<bool>)
    ensures fresh(b) && b[..] == a[..]
  {
    b := new bool[a.Length];
    forall j | 0 <= j < a.Length {
      b[j] := a[j];
    }
  }

  /** The forward loop of MoveComponent: for i from `from` up to `to - 1`,
      dst[i] := src[i + 1]. */
  method SlideDown(src: array<bool>, dst: array<bool>, from: nat, to: nat)
    requires src != dst && from <= to < src.Length && dst[..] == src[..]
    modifies dst
    ensures dst[..] == SlidDown(src[..], from, to)
  {
    var i := from;
    while i < to
      invariant from <= i <= to
      invariant dst[..] == SlidDown(src[..], from, i)
    {
      SlidDownStep(src[..], from, i);
      dst[i] := src[i + 1];
      i := i + 1;
    }
  }

  /** The backward loop of MoveComponent: for i from `from` down to `to + 1`,
      dst[i] := src[i - 1]. */
  method SlideUp(src: array<bool>, dst: array<bool>, from: nat, to: nat)
    requires src != dst && to <= from < src.Length && dst[..] == src[..]
    modifies dst
    ensures dst[..] == SlidUp(src[..], to, from)
  {
    var i := from;
    while i > to
      invariant to <= i <= from
      invariant dst[..] == SlidUp(src[..], i, from)
    {
      SlidUpStep(src[..], i, from);
      dst[i] := src[i - 1];
      i := i - 1;
    }
  }

  /**
    The flag half of MoveComponent: a fresh copy of `foldouts` in which the
    flags strictly between the two positions shift by one towards
    `fromIndex` and the flag of `fromIndex` lands at `toIndex`.
  */
  method MovedFoldouts(foldouts: array<bool>, fromIndex: nat, toIndex: nat) returns (newFoldouts: array<bool>)
    requires fromIndex < foldouts.Length && toIndex < foldouts.Length
    ensures fresh(newFoldouts)
    ensures newFoldouts[..] == Lists.Move(foldouts[..], fromIndex, toIndex)
  {
    var foldoutState := foldouts[fromIndex];
    newFoldouts := CopyOf(foldouts);
    if fromIndex < toIndex {
      SlideDown(foldouts, newFoldouts, fromIndex, toIndex);
      SlidDownMove(foldouts[..], fromIndex, toIndex);
    } else {
      SlideUp(foldouts, newFoldouts, fromIndex, toIndex);
      SlidUpMove(foldouts[..], fromIndex, toIndex);
    }
    newFoldouts[toIndex] := foldoutState;
  }

  /** The process-wide clipboard (the static clipboardComponent field):
      None while nothing was copied. */
  class Clipboard {
    var component: Option<Slot>

    constructor ()
      ensures component.None?
    {
      component := None;
    }
  }

  /** True exactly at the last index of `flags`. */
  ghost predicate OnlyLastSet(flags: seq<bool>)
  {
    |flags| > 0 && forall i :: 0 <= i < |flags| ==> flags[i] == (i == |flags| - 1)
  }

  /** The inspector state that outlives one pass: the per-slot expand flags. */
  class ComponentListExampleEditor {
    var foldouts: array<bool>

    /** OnEnable: one collapsed flag per slot. */
    constructor (example: Jobs)
      ensures fresh(foldouts)
      ensures foldouts.Length == |example.customComponents|
      ensures forall i :: 0 <= i < foldouts.Length ==> !foldouts[i]
    {
      foldouts := new bool[|example.customComponents|](_ => false);
    }

    /** Start of every pass: flags of the wrong length are replaced by
        collapsed ones; flags of the right length are kept. */
    method SyncFoldouts(example: Jobs)
      modifies this
      ensures foldouts.Length == |example.customComponents|
      ensures old(foldouts.Length) == |example.customComponents| ==> foldouts == old(foldouts)
      ensures old(foldouts.Length) != |example.customComponents| ==>
                fresh(foldouts) && forall i :: 0 <= i < foldouts.Length ==> !foldouts[i]
    {
      if foldouts.Length != |example.customComponents| {
        foldouts := new bool[|example.customComponents|](_ => false);
      }
    }

    /**
      Move slot `fromIndex` to `toIndex` (the up and down buttons). A target
      outside the list is ignored. Otherwise the list and the expand flags
      are permuted the same way, so every slot keeps its own flag.
      The buttons only ever pass the index of a drawn slot as `fromIndex`,
      and the flags were synchronised with the list at the start of the pass.
    */
    method MoveComponent(example: Jobs, fromIndex: int, toIndex: int)
      requires 0 <= fromIndex < |example.customComponents|
      requires foldouts.Length == |example.customComponents|
      modifies this, example
      ensures example.isExecuting == old(example.isExecuting)
      ensures foldouts.Length == |example.customComponents|
      ensures !(0 <= toIndex < |old(example.customComponents)|) ==>
                example.customComponents == old(example.customComponents) && foldouts == old(foldouts)
      ensures 0 <= toIndex < |old(example.customComponents)| ==>
                example.customComponents == Lists.Move(old(example.customComponents), fromIndex, toIndex) &&
                fresh(foldouts) && foldouts[..] == Lists.Move(old(foldouts[..]), fromIndex, toIndex)
    {
      if toIndex < 0 || toIndex >= |example.customComponents| {
        return;
      }
      var item := example.customComponents[fromIndex];
      example.customComponents := Lists.Insert(Lists.RemoveAt(example.customComponents, fromIndex), toIndex, item);

      foldouts := MovedFoldouts(foldouts, fromIndex, toIndex);
    }

    /** The Copy button: the clipboard now holds a copy of the slot's script. */
    method CopyComponent(clipboard: Clipboard, component: Slot, blank: Job)
      requires component.script.Some? ==> SameType(component.script.value, blank)
      modifies clipboard
      ensures clipboard.component.Some?
      ensures clipboard.component.value.script.None? <==> component.script.None?
      ensures component.script.Some? ==>
                IsMemberCopy(clipboard.component.value.script.value, component.script.value, blank)
    {
      var script := DeepCopyScript(component.script, blank);
      clipboard.component := Some(Slot(script));
    }

    /** The Paste button: with something on the clipboard, append a copy of
        it and expand only the new slot; with nothing, change nothing. */
    method PasteComponent(example: Jobs, clipboard: Clipboard, blank: Job)
      requires clipboard.component.Some? && clipboard.component.value.script.Some? ==>
                 SameType(clipboard.component.value.script.value, blank)
      modifies this, example
      ensures example.isExecuting == old(example.isExecuting)
      ensures clipboard.component == old(clipboard.component)
      ensures old(clipboard.component).None? ==>
                example.customComponents == old(example.customComponents) && foldouts == old(foldouts)
      ensures old(clipboard.component).Some? ==>
                var held := old(clipboard.component).value.script;
                && |example.customComponents| == |old(example.customComponents)| + 1
                && example.customComponents[..|old(example.customComponents)|] == old(example.customComponents)
                && var pasted := example.customComponents[|old(example.customComponents)|].script;
                && (pasted.None? <==> held.None?)
                && (held.Some? ==> IsMemberCopy(pasted.value, held.value, blank))
                && fresh(foldouts) && foldouts.Length == |example.customComponents|
                && OnlyLastSet(foldouts[..])
    {
      if clipboard.component.Some? {
        var script := DeepCopyScript(clipboard.component.value.script, blank);
        example.customComponents := example.customComponents + [Slot(script)];
        foldouts := new bool[|example.customComponents|](_ => false);
        foldouts[|example.customComponents| - 1] := true;
      }
    }

    /** Picking a job type in the selector: append a new instance of it and
        expand only the new slot. */
    method AddSelectedJob(example: Jobs, newScript: Job)
      modifies this, example
      ensures example.isExecuting == old(example.isExecuting)
      ensures example.customComponents == old(example.customComponents) + [Slot(Some(newScript))]
      ensures fresh(foldouts) && foldouts.Length == |example.customComponents|
      ensures OnlyLastSet(foldouts[..])
    {
      example.AddComponent(Some(newScript));
      foldouts := new bool[|example.customComponents|](_ => false);
      foldouts[|example.customComponents| - 1] := true;
    }
  }
}
