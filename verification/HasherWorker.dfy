/** One hasher and its worker thread (hash/Hasher.cpp).

    Every step below is one atomic section: what runs under the lock `hcs`, one semaphore
    operation, or one access to a flag or counter outside the lock.  `Next` gives its effect and
    `Can` says when it may happen; a run is any sequence of steps, so it covers every interleaving
    of the worker with the threads that queue, remove and stop.  The class `Hasher` holds the
    fields and carries the sections out; each of its methods does what `Next` says. */
module HasherWorker {
  import opened HasherQueue
  import opened Ordering

  /** Where the worker thread is. */
  datatype Place =
    | Waiting               // before or in s.wait()
    | Top                   // processQueue: before the check of `stopping`
    | Picking               // before the lock under which the next item is taken
    | Opening(item: Item)   // an item is taken, its file not opened yet
    | Reading(item: Item, left: int)  // less than nothing is left of a file that grew
    | Hashed(item: Item)    // the file is done, before the lock
    | Leaving               // processQueue returned; before the lock in run
    | Resetting             // staying; before `stopping = false`
    | Gone                  // removed from the list

  datatype State = State(
    id: nat, w: seq<Item>, devices: Devices, bytesLeft: int,
    signals: nat, stopping: bool, shutdown: bool, place: Place)
  {
    function Flight(): seq<Item> {
      match place
      case Opening(item) => [item]
      case Reading(item, _) => [item]
      case Hashed(item) => [item]
      case _ => []
    }

    /** Bytes of the item in flight still to be accounted for. */
    function FlightBytes(): int {
      match place
      case Opening(item) => item.size
      case Reading(_, left) => left
      case _ => 0
    }
  }

  function Fresh(id: nat): State {
    State(id, [], map[], 0, 0, false, false, Waiting)
  }

  datatype Step =
    | Enqueue(item: Item)              // hashFile from the manager
    | StopHashing(under: Item -> bool) // drop queued items below a directory
    | Stop                             // drop everything, tell the worker to return
    | Shutdown                         // stop for good and wake the worker
    | Wake                             // s.wait() returns
    | CheckStop
    | Pick
    | Open(size: nat)                  // the file's size may differ from the queued one
    | Read(n: nat)
    | Fail                             // a file exception, before or after opening
    | EndFile                          // no more to read, or told to stop; whatever was expected
    | Finish
    | Decide
    | Reset

  predicate Can(s: State, step: Step) {
    match step
    case Enqueue(_) => s.place != Gone && !s.shutdown
    case StopHashing(_) => s.place != Gone
    case Stop => s.place != Gone
    case Shutdown => s.place != Gone
    case Wake => s.place == Waiting && s.signals > 0
    case CheckStop => s.place == Top
    case Pick => s.place == Picking
    case Open(_) => s.place.Opening?
    case Read(n) => s.place.Reading? && n > 0
    case Fail => s.place.Opening? || s.place.Reading?
    case EndFile => s.place.Reading?
    case Finish => s.place.Hashed?
    case Decide => s.place == Leaving
    case Reset => s.place == Resetting
  }

  function Next(s: State, step: Step): State
    requires Can(s, step)
  {
    match step
    case Enqueue(item) =>
      if HasPath(s.w, item.path) then s
      else s.(w := Insert(s.w, item), devices := Inc(s.devices, item.device),
              bytesLeft := s.bytesLeft + item.size, signals := s.signals + 1)
    case StopHashing(under) => Purge(s, 0, under)
    case Stop => s.(w := [], devices := map[], bytesLeft := 0, stopping := true)
    case Shutdown =>
      s.(w := [], devices := map[], bytesLeft := 0, stopping := true, shutdown := true, signals := s.signals + 1)
    case Wake => s.(signals := s.signals - 1, place := Top)
    case CheckStop => s.(place := if s.stopping then Leaving else Picking)
    case Pick => if s.w == [] then s.(place := Leaving) else s.(w := s.w[1..], place := Opening(s.w[0]))
    case Open(size) => s.(bytesLeft := s.bytesLeft + size - s.place.item.size, place := Reading(s.place.item, size))
    case Read(n) => s.(bytesLeft := if s.bytesLeft > 0 then s.bytesLeft - n else s.bytesLeft,
                       place := Reading(s.place.item, s.place.left - n))
    case Fail => s.(bytesLeft := s.bytesLeft - s.FlightBytes(), place := Hashed(s.place.item))
    case EndFile => s.(place := Hashed(s.place.item))
    case Finish => s.(devices := Dec(s.devices, s.place.item.device),
                      bytesLeft := if s.w == [] then 0 else s.bytesLeft, place := Top)
    case Decide => s.(place := if s.shutdown || (s.w == [] && s.id != 0) then Gone else Resetting)
    case Reset => s.(stopping := false, place := Waiting)
  }

  /** stopHashing's loop from position i on. */
  function Purge(s: State, i: nat, under: Item -> bool): State
    requires i <= |s.w|
    decreases |s.w| - i
  {
    if i == |s.w| then s
    else if under(s.w[i]) then Purge(Drop(s, i), i, under)
    else Purge(s, i + 1, under)
  }

  /** The queue without its i-th item, which is taken off the counts. */
  function Drop(s: State, i: nat): (t: State)
    requires i < |s.w|
    ensures |t.w| == |s.w| - 1
  {
    s.(w := s.w[..i] + s.w[i + 1..], devices := Dec(s.devices, s.w[i].device), bytesLeft := s.bytesLeft - s.w[i].size)
  }

  // ---------------------------------------------------------------- runs

  predicate IsRun(s: State, steps: seq<Step>)
    decreases |steps|
  {
    steps == [] || (Can(s, steps[0]) && IsRun(Next(s, steps[0]), steps[1..]))
  }

  function Exec(s: State, steps: seq<Step>): State
    requires IsRun(s, steps)
    decreases |steps|
  {
    if steps == [] then s else Exec(Next(s, steps[0]), steps[1..])
  }

  // ---------------------------------------------------------------- conservation

  /** Each device count is the number of its items queued or in flight. */
  ghost predicate Counted(s: State) {
    Tally(s.devices, s.w, s.Flight()) && Sorted(s.w)
  }

  /** How far the byte total is off what the items queued and in flight still have to read. */
  function Off(s: State): int {
    s.bytesLeft - Bytes(s.w) - s.FlightBytes()
  }

  ghost predicate Conserved(s: State) {
    Counted(s) && Off(s) == 0
  }

  lemma {:induction false} PurgeConserves(s: State, i: nat, under: Item -> bool)
    requires i <= |s.w| && Counted(s)
    ensures Counted(Purge(s, i, under))
    decreases |s.w| - i
  {
    hide Counted, Drop;
    if i < |s.w| {
      if under(s.w[i]) {
        DropConserves(s, i);
        PurgeConserves(Drop(s, i), i, under);
      } else {
        PurgeConserves(s, i + 1, under);
      }
    }
  }

  lemma {:induction false} PurgeOff(s: State, i: nat, under: Item -> bool)
    requires i <= |s.w|
    ensures Off(Purge(s, i, under)) == Off(s)
    decreases |s.w| - i
  {
    hide Drop, Off;
    if i < |s.w| {
      if under(s.w[i]) {
        DropOff(s, i);
        PurgeOff(Drop(s, i), i, under);
      } else {
        PurgeOff(s, i + 1, under);
      }
    }
  }

  /** stopHashing leaves exactly the items that are not below the directory, in order. */
  lemma {:induction false} PurgeLeaves(s: State, i: nat, under: Item -> bool)
    requires i <= |s.w|
    ensures Purge(s, i, under).w == s.w[..i] + Without(s.w[i..], under)
    decreases |s.w| - i
  {
    hide Dec;
    if i == |s.w| {
      assert s.w[..i] + [] == s.w;
    } else {
      var rest := s.w[i..];
      assert rest[0] == s.w[i] && rest[1..] == s.w[i + 1..];
      if under(s.w[i]) {
        var t := Drop(s, i);
        assert Without(rest, under) == Without(s.w[i + 1..], under);
        assert t.w[..i] == s.w[..i] && t.w[i..] == s.w[i + 1..];
        PurgeLeaves(t, i, under);
      } else {
        assert Without(rest, under) == [s.w[i]] + Without(s.w[i + 1..], under);
        assert s.w[..i + 1] == s.w[..i] + [s.w[i]];
        PurgeLeaves(s, i + 1, under);
      }
    }
  }

  /** It touches nothing but the queue and its counts. */
  lemma {:induction false} PurgeFrame(s: State, i: nat, under: Item -> bool)
    requires i <= |s.w|
    ensures var r := Purge(s, i, under); r == s.(w := r.w, devices := r.devices, bytesLeft := r.bytesLeft)
    decreases |s.w| - i
  {
    hide Dec;
    if i < |s.w| {
      if under(s.w[i]) { PurgeFrame(Drop(s, i), i, under); } else { PurgeFrame(s, i + 1, under); }
    }
  }

  lemma {:induction false} CountCut(w: seq<Item>, i: nat, d: nat)
    requires i < |w|
    ensures Count(w, d) == Count(w[..i] + w[i + 1..], d) + (if w[i].device == d then 1 else 0)
    ensures Bytes(w) == Bytes(w[..i] + w[i + 1..]) + w[i].size
  {
    var tail := [w[i]] + w[i + 1..];
    assert w == w[..i] + tail && tail[1..] == w[i + 1..];
    CountAppend(w[..i], tail, d);
    CountAppend(w[..i], w[i + 1..], d);
  }

  lemma {:induction false} DropConserves(s: State, i: nat)
    requires i < |s.w| && Counted(s)
    ensures Counted(Drop(s, i))
  {
    var x, v := s.w[i], s.w[..i] + s.w[i + 1..];
    hide PathLess;
    forall d ensures Count(s.w, d) == Count(v, d) + (if x.device == d then 1 else 0) {
      CountCut(s.w, i, d);
    }
    TallyRemove(s.devices, s.w, s.Flight(), v, s.Flight(), x);
  }

  lemma {:induction false} DropOff(s: State, i: nat)
    requires i < |s.w|
    ensures Off(Drop(s, i)) == Off(s)
  {
    CountCut(s.w, i, 0);
    hide Dec;
  }

  lemma {:induction false} EnqueueConserves(s: State, item: Item)
    requires Counted(s) && Can(s, Enqueue(item))
    ensures Counted(Next(s, Enqueue(item)))
  {
    hide PathLess, Position, Insert, Inc;
    if !HasPath(s.w, item.path) {
      TallyInsert(s.devices, s.w, s.Flight(), item);
      InsertSorted(s.w, item);
    }
  }

  lemma {:induction false} EnqueueOff(s: State, item: Item)
    requires Can(s, Enqueue(item))
    ensures Off(Next(s, Enqueue(item))) == Off(s)
  {
    CountInsert(s.w, item, 0);
    hide HasPath, Insert, Inc;
  }

  lemma {:induction false} PickConserves(s: State)
    requires Counted(s) && Can(s, Pick)
    ensures Counted(Next(s, Pick))
  {
    hide PathLess;
    if s.w != [] {
      forall d ensures Count(s.w, d) == Count(s.w[1..], d) + Count([s.w[0]], d) {
        assert [s.w[0]][1..] == [];
      }
    }
  }

  lemma {:induction false} FinishConserves(s: State)
    requires Counted(s) && Can(s, Finish)
    ensures Counted(Next(s, Finish))
  {
    hide PathLess, Dec;
    var item := s.place.item;
    forall d ensures Count([item], d) == (if item.device == d then 1 else 0) {
      assert [item][1..] == [];
    }
    TallyRemove(s.devices, s.w, [item], s.w, [], item);
  }

  /** What a step does to the byte total beyond what it accounts for.  A file that ends early leaves
      its rest in the total, a read is not taken off a total that is used up, and the total of an empty
      queue is reset. */
  function OffAfter(s: State, step: Step): int
    requires Can(s, step)
  {
    match step
    case EndFile => Off(s) + s.place.left
    case Read(n) => if s.bytesLeft > 0 then Off(s) else Off(s) + n
    case Finish => if s.w == [] then 0 else Off(s)
    case Stop => -s.FlightBytes()
    case Shutdown => -s.FlightBytes()
    case _ => Off(s)
  }

  /** The byte total is off by what the step says, whatever the state. */
  lemma {:induction false} StepOff(s: State, step: Step)
    requires Can(s, step)
    ensures Off(Next(s, step)) == OffAfter(s, step)
  {
    hide Insert, Purge, Dec, Inc, HasPath;
    match step
    case Enqueue(item) => EnqueueOff(s, item);
    case StopHashing(under) => PurgeOff(s, 0, under);
    case _ =>
  }

  /** Every step other than stop and shutdown keeps the device counts, whatever happens to the file:
      success, CRC mismatch, a failure at any point, a size that changed since queueing or changes while
      the file is read. */
  lemma {:induction false} StepConserves(s: State, step: Step)
    requires Counted(s) && Can(s, step)
    ensures !step.Stop? && !step.Shutdown? ==> Counted(Next(s, step))
    ensures !step.Stop? && !step.Shutdown? && !s.stopping ==> !Next(s, step).stopping
    ensures Off(Next(s, step)) == OffAfter(s, step)
  {
    StepOff(s, step);
    if !step.Stop? && !step.Shutdown? { StepCounts(s, step); }
    hide Counted, Next, Off;
  }

  lemma {:induction false} StepCounts(s: State, step: Step)
    requires Counted(s) && Can(s, step) && !step.Stop? && !step.Shutdown?
    ensures Counted(Next(s, step)) && (!s.stopping ==> !Next(s, step).stopping)
  {
    hide PathLess, Insert, Purge, Dec, Inc, HasPath, Sorted, Count;
    match step
    case Enqueue(item) => EnqueueConserves(s, item);
    case StopHashing(under) =>
      PurgeConserves(s, 0, under);
      PurgeFrame(s, 0, under);
    case Pick => PickConserves(s);
    case Finish => FinishConserves(s);
    case _ =>
  }

  /** A stop keeps the device counts exactly if no item is in flight. */
  lemma {:induction false} StopCountsExactly(s: State, step: Step)
    requires Counted(s) && Can(s, step) && (step.Stop? || step.Shutdown?)
    ensures Counted(Next(s, step)) <==> s.Flight() == []
  {
    var t := Next(s, step);
    if s.Flight() != [] {
      var d := s.Flight()[0].device;
      assert Count(t.w, d) == 0 && d !in t.devices && Count(t.Flight(), d) > 0;
    }
  }

  /** The step that the accounts survive: no stop with an item in flight, no file that ends with more or
      less read than it had when it was opened, no read with nothing left in the total. */
  predicate Harmless(s: State, step: Step)
    requires Can(s, step)
  {
    match step
    case Stop => s.Flight() == []
    case Shutdown => s.Flight() == []
    case EndFile => s.place.left == 0
    case Read(_) => s.bytesLeft > 0
    case _ => true
  }

  lemma {:induction false} StepConservesExactly(s: State, step: Step)
    requires Conserved(s) && Can(s, step)
    ensures Conserved(Next(s, step)) <==> Harmless(s, step)
  {
    StepConserves(s, step);
    if step.Stop? || step.Shutdown? { StopCountsExactly(s, step); }
    hide Counted, Next;
  }

  /** As long as no more is read than the file had when it was opened, there is something in the total. */
  lemma {:induction false} ReadHarmless(s: State, n: nat)
    requires Conserved(s) && Can(s, Read(n)) && n <= s.place.left
    ensures Harmless(s, Read(n))
  {
    hide Counted;
  }

  ghost predicate AlwaysConserved(s: State, steps: seq<Step>)
    requires IsRun(s, steps)
    decreases |steps|
  {
    Conserved(s) && (steps != [] ==> AlwaysConserved(Next(s, steps[0]), steps[1..]))
  }

  predicate AlwaysHarmless(s: State, steps: seq<Step>)
    requires IsRun(s, steps)
    decreases |steps|
  {
    steps != [] ==> Harmless(s, steps[0]) && AlwaysHarmless(Next(s, steps[0]), steps[1..])
  }

  /** In every run the device counts are right, and the byte total is what the items queued and in
      flight still have to read, at every moment, exactly if all its steps are harmless. */
  lemma {:induction false} RunsConserve(s: State, steps: seq<Step>)
    requires Conserved(s) && IsRun(s, steps)
    ensures AlwaysConserved(s, steps) <==> AlwaysHarmless(s, steps)
    decreases |steps|
  {
    hide Conserved, Harmless, Can, Next;
    if steps != [] {
      StepConservesExactly(s, steps[0]);
      if Harmless(s, steps[0]) { RunsConserve(Next(s, steps[0]), steps[1..]); }
    }
  }

  /** In every run without a stop the device counts are right, whatever happens to the files. */
  lemma {:induction false} RunsCount(s: State, steps: seq<Step>)
    requires Counted(s) && IsRun(s, steps)
    requires forall i :: 0 <= i < |steps| ==> !steps[i].Stop? && !steps[i].Shutdown?
    ensures Counted(Exec(s, steps))
    decreases |steps|
  {
    hide Counted, Can, Next;
    if steps != [] {
      StepConserves(s, steps[0]);
      forall i | 0 <= i < |steps[1..]| ensures !steps[1..][i].Stop? && !steps[1..][i].Shutdown? {
        assert steps[1..][i] == steps[i + 1];
      }
      assert !steps[0].Stop? && !steps[0].Shutdown?;
      RunsCount(Next(s, steps[0]), steps[1..]);
    }
  }

  lemma {:induction false} FreshConserved(id: nat)
    ensures Conserved(Fresh(id))
  {}

  // ---------------------------------------------------------------- no lost wake-ups

  /** A worker that sleeps on a non-empty queue with no signal on its way. */
  predicate Stuck(s: State) {
    s.place == Waiting && s.w != [] && s.signals == 0
  }

  /** Where nobody will look into the queue before the next wait. */
  predicate Idle(p: Place) {
    p in {Waiting, Leaving, Resetting}
  }

  predicate Awake(s: State) {
    && (s.w != [] && (Idle(s.place) || s.stopping) ==> s.signals > 0)
    && (s.place == Waiting && s.stopping ==> s.signals > (if s.w == [] then 0 else 1))
    && (s.place == Gone || s.shutdown ==> s.w == [])
  }

  /** A stop that finds the worker asleep with nothing to wake it up. */
  predicate SleepyStop(s: State, step: Step) {
    step.Stop? && s.place == Waiting && s.signals == 0
  }

  lemma {:induction false} StepKeepsAwake(s: State, step: Step)
    requires Awake(s) && Can(s, step) && !SleepyStop(s, step)
    ensures Awake(Next(s, step))
  {
    if step.StopHashing? {
      PurgeLeaves(s, 0, step.under);
      PurgeFrame(s, 0, step.under);
      WithoutOfEmpty(s.w[0..], step.under);
    }
  }

  lemma {:induction false} WithoutOfEmpty(w: seq<Item>, under: Item -> bool)
    ensures |Without(w, under)| <= |w|
  {
    if w != [] { WithoutOfEmpty(w[1..], under); }
  }

  /** A run in which no stop finds the worker so. */
  predicate IsQuietRun(s: State, steps: seq<Step>): (quiet: bool)
    ensures quiet ==> IsRun(s, steps)
    decreases |steps|
  {
    steps == [] || (Can(s, steps[0]) && !SleepyStop(s, steps[0]) && IsQuietRun(Next(s, steps[0]), steps[1..]))
  }

  /** In every interleaving in which no stop catches the worker asleep without a signal: a worker
      that waits on a non-empty queue has a signal pending, and one that has left the list has an
      empty queue. */
  lemma {:induction false} NeverStuck(s: State, steps: seq<Step>)
    requires Awake(s) && IsQuietRun(s, steps)
    ensures Awake(Exec(s, steps)) && !Stuck(Exec(s, steps))
    decreases |steps|
  {
    if steps != [] {
      StepKeepsAwake(s, steps[0]);
      NeverStuck(Next(s, steps[0]), steps[1..]);
    }
  }

  /** The condition is exact: after a stop that does catch the worker so, queueing one file and
      letting the worker run leaves it stuck with that file. */
  lemma {:induction false} SleepyStopLosesWakeUp(s: State, item: Item)
    requires Awake(s) && !s.shutdown && SleepyStop(s, Stop)
    ensures s.w == []
    ensures var steps := [Stop] + ([Enqueue(item)] + ([Wake] + ([CheckStop] + ([Decide] + ([Reset] + [])))));
      IsRun(s, steps) && Stuck(Exec(s, steps)) && Exec(s, steps).w == [item]
  {
    SleepyStates(s, item);
    hide Can, Next, IsRun, Exec, Stuck, Awake;
    var s2 := Next(Next(s, Stop), Enqueue(item));
    var s4 := Next(Next(s2, Wake), CheckStop);
    var s6 := Next(Next(s4, Decide), Reset);
    var late := [Decide] + ([Reset] + []);
    NoSteps(s6);
    FirstStep(Next(s4, Decide), Reset, []);
    FirstStep(s4, Decide, [Reset] + []);
    FirstStep(Next(s2, Wake), CheckStop, late);
    FirstStep(s2, Wake, [CheckStop] + late);
    FirstStep(Next(s, Stop), Enqueue(item), [Wake] + ([CheckStop] + late));
    FirstStep(s, Stop, [Enqueue(item)] + ([Wake] + ([CheckStop] + late)));
  }

  lemma {:induction false} SleepyStates(s: State, item: Item)
    requires Awake(s) && !s.shutdown && SleepyStop(s, Stop)
    ensures s.w == [] && Can(s, Stop) && Can(Next(s, Stop), Enqueue(item))
    ensures var s2 := Next(Next(s, Stop), Enqueue(item));
      && Can(s2, Wake) && Can(Next(s2, Wake), CheckStop)
      && var s4 := Next(Next(s2, Wake), CheckStop);
      && Can(s4, Decide) && Can(Next(s4, Decide), Reset)
      && var s6 := Next(Next(s4, Decide), Reset); Stuck(s6) && s6.w == [item]
  {
    assert Next(Next(s, Stop), Enqueue(item)).w == [item];
  }

  lemma {:induction false} FirstStep(s: State, a: Step, rest: seq<Step>)
    requires Can(s, a) && IsRun(Next(s, a), rest)
    ensures IsRun(s, [a] + rest) && Exec(s, [a] + rest) == Exec(Next(s, a), rest)
  {
    assert ([a] + rest)[0] == a && ([a] + rest)[1..] == rest;
    hide Can, Next;
  }

  lemma {:induction false} NoSteps(s: State)
    ensures IsRun(s, []) && Exec(s, []) == s
  {}

  // ---------------------------------------------------------------- the object

  /** The fields of a hasher; `place` is the worker thread's position with its local variables. */
  class Hasher {
    const hasherID: nat
    var w: seq<Item>
    var devices: Devices
    var totalBytesLeft: int
    var signals: nat
    var stopping: bool
    var isShutdown: bool
    var place: Place

    function View(): State
      reads this
    {
      State(hasherID, w, devices, totalBytesLeft, signals, stopping, isShutdown, place)
    }

    constructor (id: nat)
      ensures View() == Fresh(id)
    {
      hasherID, w, devices, totalBytesLeft := id, [], map[], 0;
      signals, stopping, isShutdown, place := 0, false, false, Waiting;
    }

    method HashFile(item: Item) returns (added: bool)
      requires Sorted(w) && Can(View(), Enqueue(item))
      modifies this
      ensures View() == Next(old(View()), Enqueue(item))
      ensures added <==> !HasPath(old(w), item.path)
    {
      hide Insert, HasPath, Sorted;
      w, added := EmplaceSorted(w, item);
      if added {
        devices := Inc(devices, item.device);
        totalBytesLeft := totalBytesLeft + item.size;
        signals := signals + 1;
      }
    }

    method RemoveDevice(d: nat)
      modifies this`devices
      ensures devices == Dec(old(devices), d)
    {
      if d in devices {
        devices := devices[d := devices[d] - 1];
        if devices[d] == 0 {
          devices := devices - {d};
        }
      }
    }

    /** Removes while it walks; the position stays where an item was erased. */
    method StopHashing(under: Item -> bool)
      requires Can(View(), Step.StopHashing(under))
      modifies this
      ensures View() == Next(old(View()), Step.StopHashing(under))
    {
      hide Dec;
      var i := 0;
      while i < |w|
        invariant 0 <= i <= |w|
        invariant Purge(View(), i, under) == Purge(old(View()), 0, under)
        decreases |w| - i
      {
        if under(w[i]) {
          ghost var before := View();
          totalBytesLeft := totalBytesLeft - w[i].size;
          RemoveDevice(w[i].device);
          w := w[..i] + w[i + 1..];
          assert View() == Drop(before, i);
        } else {
          i := i + 1;
        }
      }
    }

    method Clear()
      modifies this`w, this`devices, this`totalBytesLeft
      ensures w == [] && devices == map[] && totalBytesLeft == 0
    {
      w, devices, totalBytesLeft := [], map[], 0;
    }

    method Stop()
      requires Can(View(), Step.Stop)
      modifies this
      ensures View() == Next(old(View()), Step.Stop)
    {
      Clear();
      stopping := true;
    }

    method Shutdown()
      requires Can(View(), Step.Shutdown)
      modifies this
      ensures View() == Next(old(View()), Step.Shutdown)
    {
      isShutdown := true;
      Stop();
      signals := signals + 1;
    }

    /** One atomic section of the worker: run, processQueue and the file-reading callbacks. */
    method WorkerSection(step: Step) returns (gone: bool)
      requires !step.Enqueue? && !step.StopHashing? && !step.Stop? && !step.Shutdown?
      requires Can(View(), step)
      modifies this
      ensures View() == Next(old(View()), step)
      ensures gone <==> step.Decide? && (isShutdown || (w == [] && hasherID != 0))
    {
      gone := false;
      match step
      case Wake =>
        signals := signals - 1;
        place := Top;
      case CheckStop =>
        if stopping { place := Leaving; } else { place := Picking; }
      case Pick =>
        if w != [] {
          place := Opening(w[0]);
          w := w[1..];
        } else {
          place := Leaving;
        }
      case Open(size) =>
        totalBytesLeft := totalBytesLeft + (size - place.item.size);
        place := Reading(place.item, size);
      case Read(n) =>
        if totalBytesLeft > 0 {
          totalBytesLeft := totalBytesLeft - n;
        }
        place := Reading(place.item, place.left - n);
      case Fail =>
        var sizeLeft := if place.Opening? then place.item.size else place.left;
        totalBytesLeft := totalBytesLeft - sizeLeft;
        place := Hashed(place.item);
      case EndFile =>
        place := Hashed(place.item);
      case Finish =>
        RemoveDevice(place.item.device);
        if w == [] {
          totalBytesLeft := 0;
        }
        place := Top;
      case Decide =>
        if isShutdown || (w == [] && hasherID != 0) {
          gone := true;
          place := Gone;
        } else {
          place := Resetting;
        }
      case Reset =>
        stopping := false;
        place := Waiting;
    }
  }
}
