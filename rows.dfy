/** The shape shared by the row loops of js/paradise.js and js/main.js: a
    `forEach` over messages whose body either skips a message, pushes one
    row, or throws, which abandons the loop. */
module Rows {
  import opened Common

  /** What a loop body does with one element. */
  datatype Step<R> = Skip | Push(row: R) | Throw(error: Error)

  /** Running steps in order: the rows pushed, or the error of the first
      throw. */
  function Run<R>(steps: seq<Step<R>>): Result<seq<R>>
  {
    if |steps| == 0 then Ok([])
    else
      match Run(steps[..|steps| - 1])
      case Err(e) => Err(e)
      case Ok(rows) =>
        match steps[|steps| - 1]
        case Skip => Ok(rows)
        case Push(row) => Ok(rows + [row])
        case Throw(e) => Err(e)
  }

  /** One more step after steps that have not thrown. */
  lemma RunNext<R>(steps: seq<Step<R>>, i: nat)
    requires i < |steps| && Run(steps[..i]).Ok?
    ensures steps[i].Skip? ==> Run(steps[..i + 1]) == Run(steps[..i])
    ensures steps[i].Push? ==> Run(steps[..i + 1]) == Ok(Run(steps[..i]).value + [steps[i].row])
    ensures steps[i].Throw? ==> Run(steps[..i + 1]) == Err(steps[i].error)
  {
    assert steps[..i + 1][..i] == steps[..i];
  }

  /** Once some first steps throw, the whole run fails with that error. */
  lemma {:induction false} RunErrStays<R>(steps: seq<Step<R>>, i: nat)
    requires i <= |steps| && Run(steps[..i]).Err?
    ensures Run(steps) == Run(steps[..i])
    decreases |steps| - i
  {
    if i < |steps| {
      assert steps[..i + 1][..i] == steps[..i];
      RunErrStays(steps, i + 1);
    } else {
      assert steps[..i] == steps;
    }
  }

  /** The rows of the steps that push one, in order, errors ignored. */
  function Pushed<R>(steps: seq<Step<R>>): seq<R>
  {
    if |steps| == 0 then []
    else
      var last := steps[|steps| - 1];
      Pushed(steps[..|steps| - 1]) + if last.Push? then [last.row] else []
  }

  /** The positions of the steps that push a row, in order. */
  function PushIndices<R>(steps: seq<Step<R>>): (r: seq<nat>)
    ensures |r| == |Pushed(steps)|
    ensures forall j :: 0 <= j < |r| ==> r[j] < |steps|
  {
    if |steps| == 0 then []
    else
      var n := |steps| - 1;
      PushIndices(steps[..n]) + if steps[n].Push? then [n] else []
  }

  /** Each position holds a pushing step, whose row is the pushed row there. */
  lemma {:induction false} PushIndicesRows<R>(steps: seq<Step<R>>)
    ensures forall j :: 0 <= j < |PushIndices(steps)| ==>
      steps[PushIndices(steps)[j]].Push? && Pushed(steps)[j] == steps[PushIndices(steps)[j]].row
  {
    if |steps| != 0 {
      var n := |steps| - 1;
      var init := steps[..n];
      PushIndicesRows(init);
      var r0, p0 := PushIndices(init), Pushed(init);
      var r, p := PushIndices(steps), Pushed(steps);
      assert r == r0 + if steps[n].Push? then [n] else [];
      assert p == p0 + if steps[n].Push? then [steps[n].row] else [];
      forall j | 0 <= j < |r|
        ensures steps[r[j]].Push? && p[j] == steps[r[j]].row
      {
        if j < |r0| {
          assert r[j] == r0[j] && p[j] == p0[j] && steps[r0[j]] == init[r0[j]];
        } else {
          assert r[j] == n && p[j] == steps[n].row;
        }
      }
    }
  }

  /** The positions are ascending. */
  lemma {:induction false} PushIndicesAscending<R>(steps: seq<Step<R>>)
    ensures forall j, j' :: 0 <= j < j' < |PushIndices(steps)| ==> PushIndices(steps)[j] < PushIndices(steps)[j']
  {
    if |steps| != 0 {
      var n := |steps| - 1;
      var init := steps[..n];
      PushIndicesAscending(init);
      var r0, r := PushIndices(init), PushIndices(steps);
      assert r == r0 + if steps[n].Push? then [n] else [];
      forall j, j' | 0 <= j < j' < |r|
        ensures r[j] < r[j']
      {
        if |r0| <= j' {
          assert r[j'] == n && r[j] == r0[j] && r0[j] < |init| == n;
        } else {
          assert r[j'] == r0[j'] && r[j] == r0[j];
          assert r0[j] < r0[j'];
        }
      }
    }
  }

  /** Every pushing step has its position. */
  lemma {:induction false} PushIndicesComplete<R>(steps: seq<Step<R>>)
    ensures forall i :: 0 <= i < |steps| && steps[i].Push? ==> i in PushIndices(steps)
  {
    if |steps| != 0 {
      var n := |steps| - 1;
      var init := steps[..n];
      PushIndicesComplete(init);
      var r0, r := PushIndices(init), PushIndices(steps);
      assert r == r0 + if steps[n].Push? then [n] else [];
      forall i | 0 <= i < |steps| && steps[i].Push?
        ensures i in r
      {
        if i < n {
          assert init[i] == steps[i] && i in r0;
        } else {
          assert r[|r| - 1] == n;
        }
      }
    }
  }

  /** The positions of the pushing steps are ascending, hold one pushing step
      per pushed row, that row, and leave none out. */
  lemma PushIndicesSpec<R>(steps: seq<Step<R>>)
    ensures forall j :: 0 <= j < |PushIndices(steps)| ==>
      steps[PushIndices(steps)[j]].Push? && Pushed(steps)[j] == steps[PushIndices(steps)[j]].row
    ensures forall j, j' :: 0 <= j < j' < |PushIndices(steps)| ==> PushIndices(steps)[j] < PushIndices(steps)[j']
    ensures forall i :: 0 <= i < |steps| && steps[i].Push? ==> i in PushIndices(steps)
  {
    PushIndicesRows(steps);
    PushIndicesAscending(steps);
    PushIndicesComplete(steps);
  }

  /** `j` is the first step that throws. */
  predicate FirstThrow<R>(steps: seq<Step<R>>, j: int)
  {
    0 <= j < |steps| && steps[j].Throw? && forall i :: 0 <= i < j ==> !steps[i].Throw?
  }

  /** A run succeeds exactly when no step throws, and then yields the pushed
      rows. */
  lemma {:induction false} RunOk<R>(steps: seq<Step<R>>)
    ensures Run(steps).Ok? <==> forall i :: 0 <= i < |steps| ==> !steps[i].Throw?
    ensures Run(steps).Ok? ==> Run(steps).value == Pushed(steps)
  {
    if |steps| != 0 {
      var n := |steps| - 1;
      var init := steps[..n];
      RunOk(init);
      assert forall i :: 0 <= i < n ==> steps[i] == init[i];
    }
  }

  /** A failed run fails with the error of the first step that throws. */
  lemma {:induction false} RunErr<R>(steps: seq<Step<R>>)
    requires Run(steps).Err?
    ensures exists j :: FirstThrow(steps, j) && Run(steps).error == steps[j].error
  {
    var n := |steps| - 1;
    var init := steps[..n];
    if Run(init).Err? {
      RunErr(init);
      var j :| FirstThrow(init, j) && Run(init).error == init[j].error;
      assert forall i :: 0 <= i <= j ==> steps[i] == init[i];
      assert FirstThrow(steps, j);
    } else {
      RunOk(init);
      assert forall i :: 0 <= i < n ==> steps[i] == init[i];
      assert FirstThrow(steps, n);
    }
  }

  /** A run succeeds exactly when no step throws, and then yields the pushed
      rows; otherwise it fails with the error of the first step that throws. */
  lemma RunSpec<R>(steps: seq<Step<R>>)
    ensures Run(steps).Ok? <==> forall i :: 0 <= i < |steps| ==> !steps[i].Throw?
    ensures Run(steps).Ok? ==> Run(steps).value == Pushed(steps)
    ensures Run(steps).Err? ==> exists j :: FirstThrow(steps, j) && Run(steps).error == steps[j].error
  {
    RunOk(steps);
    if Run(steps).Err? {
      RunErr(steps);
    }
  }
}
