/**
  The Jobs component: the ordered slot list, add and remove, the two ways
  of running it under one single-flight flag, and the "is anything still
  running" query.
*/
module JobContainer {
  import opened Common
  import opened JobData
  import Lists

  /** Indices of the slots that hold a script, in list order. */
  function ScriptIndices(slots: seq<Slot>): (r: seq<nat>)
    ensures forall k :: 0 <= k < |r| ==> r[k] < |slots| && slots[r[k]].script.Some?
    ensures forall i :: 0 <= i < |slots| && slots[i].script.Some? ==> i in r
    ensures forall a, b :: 0 <= a < b < |r| ==> r[a] < r[b]
  {
    if |slots| == 0 then []
    else
      var rest := ScriptIndices(slots[..|slots| - 1]);
      if slots[|slots| - 1].script.Some? then rest + [|slots| - 1] else rest
  }

  /** True when slot i holds a script whose execution throws. */
  predicate Throws(slots: seq<Slot>, i: nat, throws: Job -> bool)
  {
    i < |slots| && slots[i].script.Some? && throws(slots[i].script.value)
  }

  /** The started indices whose executions fault, in start order. */
  function Faulted(slots: seq<Slot>, started: seq<nat>, throws: Job -> bool): (r: seq<nat>)
    ensures forall x :: x in r <==> x in started && Throws(slots, x, throws)
  {
    if |started| == 0 then []
    else
      var rest := Faulted(slots, started[1..], throws);
      if Throws(slots, started[0], throws) then [started[0]] + rest else rest
  }

  /** `c.script?.IsExecuting ?? false` for some slot c. */
  function AnyExecuting(slots: seq<Slot>): (r: bool)
    ensures r <==> exists i :: 0 <= i < |slots| && slots[i].script.Some? && slots[i].script.value.isExecuting
  {
    if |slots| == 0 then false
    else
      (slots[0].script.Some? && slots[0].script.value.isExecuting) || AnyExecuting(slots[1..])
  }

  /**
    The body of ExecuteAllSequential's try block: await each script in list
    order. `throws` says which scripts fault; the first fault stops the run
    and is returned in `failure` as the exception the caller sees. `visited`
    lists the slots whose ExecuteAsync was called, in call order.
  */
  method RunInOrder(slots: seq<Slot>, throws: Job -> bool) returns (visited: seq<nat>, failure: Option<nat>)
    ensures visited <= ScriptIndices(slots)
    ensures forall k :: 0 <= k < |visited| - 1 ==> !Throws(slots, visited[k], throws)
    ensures failure.None? ==>
              visited == ScriptIndices(slots) &&
              forall k :: 0 <= k < |visited| ==> !Throws(slots, visited[k], throws)
    ensures failure.Some? ==>
              |visited| > 0 && failure.value == visited[|visited| - 1] &&
              Throws(slots, failure.value, throws)
  {
    visited, failure := [], None;
    var i := 0;
    while i < |slots| && failure.None?
      invariant 0 <= i <= |slots|
      invariant visited == ScriptIndices(slots[..i])
      invariant forall k :: 0 <= k < |visited| - 1 ==> !Throws(slots, visited[k], throws)
      invariant failure.None? ==> forall k :: 0 <= k < |visited| ==> !Throws(slots, visited[k], throws)
      invariant failure.Some? ==>
                  |visited| > 0 && failure.value == visited[|visited| - 1] &&
                  Throws(slots, failure.value, throws)
    {
      ScriptIndicesStep(slots, i);
      if slots[i].script.Some? {
        visited := visited + [i];
        if throws(slots[i].script.value) {
          failure := Some(i);
        }
      }
      i := i + 1;
    }
    PrefixIndices(slots, i);
    if failure.None? {
      assert slots[..i] == slots;
    }
  }

  class Jobs {
    var customComponents: seq<Slot>
    var isExecuting: bool

    constructor ()
      ensures customComponents == [] && !isExecuting
    {
      customComponents := [];
      isExecuting := false;
    }

    /** Append one slot holding `script`. */
    method AddComponent(script: Option<Job>)
      modifies this
      ensures customComponents == old(customComponents) + [Slot(script)]
      ensures isExecuting == old(isExecuting)
    {
      customComponents := customComponents + [Slot(script)];
    }

    /** Remove slot `index` if it exists; otherwise do nothing. */
    method RemoveComponent(index: int)
      modifies this
      ensures 0 <= index < |old(customComponents)| ==>
                customComponents == Lists.RemoveAt(old(customComponents), index)
      ensures !(0 <= index < |old(customComponents)|) ==> customComponents == old(customComponents)
      ensures isExecuting == old(isExecuting)
    {
      if index >= 0 && index < |customComponents| {
        customComponents := Lists.RemoveAt(customComponents, index);
      }
    }

    /**
      Run every script in list order, each to completion before the next
      (see RunInOrder). `ran` is false when a run was already in progress;
      the flag is cleared again however the run ends.
    */
    method ExecuteAllSequential(throws: Job -> bool) returns (ran: bool, visited: seq<nat>, failure: Option<nat>)
      modifies this
      ensures customComponents == old(customComponents)
      ensures ran == !old(isExecuting)
      ensures !ran ==> visited == [] && failure.None? && isExecuting
      ensures ran ==> !isExecuting
      ensures visited <= ScriptIndices(customComponents)
      ensures forall k :: 0 <= k < |visited| - 1 ==> !Throws(customComponents, visited[k], throws)
      ensures ran && failure.None? ==>
                visited == ScriptIndices(customComponents) &&
                forall k :: 0 <= k < |visited| ==> !Throws(customComponents, visited[k], throws)
      ensures failure.Some? ==>
                |visited| > 0 && failure.value == visited[|visited| - 1] &&
                Throws(customComponents, failure.value, throws)
    {
      if isExecuting {
        return false, [], None;
      }
      ran := true;
      isExecuting := true;
      // try
      visited, failure := RunInOrder(customComponents, throws);
      // finally
      isExecuting := false;
    }

    /**
      Start every script at once and wait for all of them. `started` lists the
      slots whose ExecuteAsync was called; `faulted` the ones among them whose
      task faults (the awaited WhenAll rethrows the first). `ran` is false when
      a run was already in progress.
    */
    method ExecuteAllParallel(throws: Job -> bool) returns (ran: bool, started: seq<nat>, faulted: seq<nat>)
      modifies this
      ensures customComponents == old(customComponents)
      ensures ran == !old(isExecuting)
      ensures !ran ==> started == [] && faulted == [] && isExecuting
      ensures ran ==> !isExecuting && started == ScriptIndices(customComponents)
      ensures ran ==> forall x :: x in faulted <==> x in started && Throws(customComponents, x, throws)
    {
      if isExecuting {
        return false, [], [];
      }
      ran := true;
      isExecuting := true;
      // try
      started := ScriptIndices(customComponents);
      faulted := Faulted(customComponents, started, throws);
      // finally
      isExecuting := false;
    }

    /** Whether some slot's script reports IsExecuting. */
    function AreScriptsExecuting(): (r: bool)
      reads this
      ensures r <==> exists i :: 0 <= i < |customComponents| &&
                       customComponents[i].script.Some? && customComponents[i].script.value.isExecuting
    {
      AnyExecuting(customComponents)
    }
  }

  /** Extending a prefix by one slot adds its index exactly when it holds a script. */
  lemma ScriptIndicesStep(slots: seq<Slot>, i: nat)
    requires i < |slots|
    ensures ScriptIndices(slots[..i + 1]) ==
              ScriptIndices(slots[..i]) + (if slots[i].script.Some? then [i] else [])
  {
    assert slots[..i + 1][..i] == slots[..i];
  }

  /** The scripted indices of a prefix are a prefix of the scripted indices. */
  lemma {:induction false} PrefixIndices(slots: seq<Slot>, n: nat)
    requires n <= |slots|
    ensures ScriptIndices(slots[..n]) <= ScriptIndices(slots)
    decreases |slots| - n
  {
    if n < |slots| {
      PrefixIndices(slots, n + 1);
      assert slots[..n + 1][..n] == slots[..n];
    } else {
      assert slots[..n] == slots;
    }
  }
}
