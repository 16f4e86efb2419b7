/** In which order a hasher works, and how it ends (hash/Hasher.cpp). */
module HasherOrder {
  import opened HasherQueue
  import opened HasherWorker
  import opened Ordering

  // ---------------------------------------------------------------- the order of files

  /** The items taken from the queue in a run. */
  function Picked(s: State, steps: seq<Step>): seq<Item>
    requires IsRun(s, steps)
    decreases |steps|
  {
    if steps == [] then []
    else (if steps[0].Pick? && s.w != [] then [s.w[0]] else []) + Picked(Next(s, steps[0]), steps[1..])
  }

  ghost predicate NothingQueued(steps: seq<Step>) {
    forall k :: 0 <= k < |steps| ==> !steps[k].Enqueue?
  }

  /** A step that queues nothing leaves the queue in order, with no items but those it had. */
  lemma {:induction false} StepInOrder(s: State, step: Step)
    requires Sorted(s.w) && Can(s, step) && !step.Enqueue?
    ensures Sorted(Next(s, step).w) && forall x :: x in Next(s, step).w ==> x in s.w
  {
    if step.StopHashing? {
      PurgeLeaves(s, 0, step.under);
      assert s.w[0..] == s.w && s.w[..0] == [];
      assert Next(s, step).w == Without(s.w, step.under);
      WithoutSorted(s.w, step.under);
      forall x | x in Next(s, step).w ensures x in s.w { WithoutExact(s.w, step.under, x); }
    }
  }

  /** The first item is smaller than the others. */
  lemma {:induction false} FirstSmallest(s: State)
    requires Sorted(s.w) && s.w != []
    ensures forall x :: x in s.w[1..] ==> PathLess(s.w[0].path, x.path)
  {
    hide PathLess;
    forall x | x in s.w[1..] ensures PathLess(s.w[0].path, x.path) {
      var k :| 0 <= k < |s.w[1..]| && s.w[1..][k] == x;
      assert s.w[k + 1] == x;
    }
  }

  /** As long as nothing is queued, files are taken in the order of their paths, each once. */
  lemma {:induction false} PickedInOrder(s: State, steps: seq<Step>)
    requires Sorted(s.w) && IsRun(s, steps) && NothingQueued(steps)
    ensures Sorted(Picked(s, steps)) && forall x :: x in Picked(s, steps) ==> x in s.w
    decreases |steps|
  {
    if steps != [] {
      var t, rest := Next(s, steps[0]), Picked(Next(s, steps[0]), steps[1..]);
      StepInOrder(s, steps[0]);
      PickedInOrder(t, steps[1..]);
      if steps[0].Pick? && s.w != [] {
        FirstSmallest(s);
        SortedFirst(s.w[0], rest);
      }
      hide PathLess, Next, Can;
    }
  }

  lemma {:induction false} SortedFirst(x: Item, rest: seq<Item>)
    requires Sorted(rest) && forall y :: y in rest ==> PathLess(x.path, y.path)
    ensures Sorted([x] + rest)
  {
    hide PathLess;
  }

  // ---------------------------------------------------------------- the end

  /** After a shutdown: nothing is queued, nothing can be, and the worker will not wait for ever. */
  ghost predicate Ending(s: State) {
    s.shutdown && s.w == [] && (s.place == Waiting || s.place == Resetting ==> s.signals > 0)
  }

  lemma {:induction false} ShutdownBegins(s: State)
    requires Can(s, Shutdown)
    ensures Ending(Next(s, Shutdown))
  {}

  lemma {:induction false} EndingStays(s: State, step: Step)
    requires Ending(s) && Can(s, step)
    ensures Ending(Next(s, step)) && !step.Enqueue?
  {
    if step.StopHashing? { assert Next(s, step) == s; }
  }

  /** One step that brings the worker nearer to its end. */
  lemma {:induction false} Onward(s: State) returns (step: Step)
    requires Ending(s) && s.place != Gone
    ensures Can(s, step) && Ending(Next(s, step)) && Distance(Next(s, step)) < Distance(s)
  {
    step := match s.place
      case Waiting => Wake
      case Top => CheckStop
      case Picking => Pick
      case Opening(_) => Fail
      case Reading(_, _) => EndFile
      case Hashed(_) => Finish
      case Leaving => Decide
      case Resetting => Reset;
  }

  function Distance(s: State): nat {
    match s.place
    case Gone => 0
    case Leaving => 1
    case Picking => 2
    case Top => 3
    case Hashed(_) => 4
    case Reading(_, _) => 5
    case Opening(_) => 6
    case Waiting => 4
    case Resetting => 5
  }

  lemma {:induction false} EndReached(s: State) returns (steps: seq<Step>)
    requires Ending(s)
    ensures IsRun(s, steps) && Exec(s, steps).place == Gone && |steps| <= Distance(s)
    decreases Distance(s)
  {
    if s.place == Gone {
      steps := [];
    } else {
      var step := Onward(s);
      var rest := EndReached(Next(s, step));
      steps := [step] + rest;
      FirstStep(s, step, rest);
    }
  }

  /** Whatever happens after a shutdown, no file is accepted, and the worker can go on until it is out of the
      list, within six steps. */
  lemma {:induction false} ShutdownEnds(s: State, steps: seq<Step>) returns (more: seq<Step>)
    requires Can(s, Shutdown) && IsRun(Next(s, Shutdown), steps)
    ensures var t := Exec(Next(s, Shutdown), steps);
      && (forall item :: !Can(t, Enqueue(item))) && t.w == []
      && IsRun(t, more) && Exec(t, more).place == Gone && |more| <= 6
  {
    ShutdownBegins(s);
    EndingHolds(Next(s, Shutdown), steps);
    more := EndReached(Exec(Next(s, Shutdown), steps));
  }

  lemma {:induction false} EndingHolds(s: State, steps: seq<Step>)
    requires Ending(s) && IsRun(s, steps)
    ensures Ending(Exec(s, steps))
    decreases |steps|
  {
    if steps != [] {
      EndingStays(s, steps[0]);
      EndingHolds(Next(s, steps[0]), steps[1..]);
    }
  }
}
