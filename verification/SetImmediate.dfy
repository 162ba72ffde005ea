/** The `setImmediate` polyfill: tasks by handle, one posted event per handle, and no task inside another. */
module SetImmediate {
  import opened Wrappers

  type Handle = nat

  /** What a callback does to the scheduler while it runs: schedule and clear tasks, or let the event loop deliver
      an event inside it (as a modal dialog does).  It may also throw, which ends it early. */
  datatype Action = Schedule(task: Task) | Clear(handle: Handle) | NestedEvent(handle: Handle)

  datatype Task = Task(actions: seq<Action>)

  /** `tasksByHandle`, `nextHandle` and `currentlyRunningATask`, and the posted events that were not delivered. */
  datatype Core = Core(nextHandle: Handle, tasks: map<Handle, Task>, running: bool, pending: multiset<Handle>)

  function AfterSet(c: Core, task: Task): Core {
    Core(c.nextHandle + 1, c.tasks[c.nextHandle := task], c.running, c.pending + multiset{c.nextHandle})
  }

  function AfterClear(c: Core, h: Handle): Core {
    c.(tasks := c.tasks - {h})
  }

  /** The start of `runIfPresent` for a delivered event: it is posted again while a task is running; otherwise its
      task starts, if it is still there. */
  function AfterEvent(c: Core, h: Handle): Core
    requires h in c.pending
  {
    if c.running then c
    else c.(pending := c.pending - multiset{h}, running := h in c.tasks)
  }

  /** The `finally` block. */
  function AfterTask(c: Core, h: Handle): Core {
    AfterClear(c, h).(running := false)
  }

  function AfterAction(c: Core, a: Action): Core {
    match a
    case Schedule(task) => AfterSet(c, task)
    case Clear(h) => AfterClear(c, h)
    case NestedEvent(h) => if c.running && h in c.pending then AfterEvent(c, h) else c
  }

  function AfterActions(c: Core, actions: seq<Action>): Core {
    if actions == [] then c
    else AfterAction(AfterActions(c, actions[..|actions| - 1]), actions[|actions| - 1])
  }

  /** A whole call of `runIfPresent` for a delivered event. */
  function AfterRunIfPresent(c: Core, h: Handle): Core
    requires h in c.pending
  {
    var started := AfterEvent(c, h);
    if c.running || h !in c.tasks then started
    else AfterTask(AfterActions(started, c.tasks[h].actions), h)
  }

  class Scheduler {
    var nextHandle: Handle
    var tasksByHandle: map<Handle, Task>
    var currentlyRunningATask: bool
    var pending: multiset<Handle>

    function View(): Core
      reads this
    {
      Core(nextHandle, tasksByHandle, currentlyRunningATask, pending)
    }

    constructor ()
      ensures View() == Core(1, map[], false, multiset{})
    {
      nextHandle, tasksByHandle, currentlyRunningATask, pending := 1, map[], false, multiset{};
    }

    method SetImmediate(task: Task) returns (handle: Handle)
      modifies this
      ensures handle == old(nextHandle) && View() == AfterSet(old(View()), task)
    {
      tasksByHandle := tasksByHandle[nextHandle := task];
      RegisterImmediate(nextHandle);
      handle := nextHandle;
      nextHandle := nextHandle + 1;
    }

    method ClearImmediate(handle: Handle)
      modifies this
      ensures View() == AfterClear(old(View()), handle)
    {
      tasksByHandle := tasksByHandle - {handle};
    }

    /** Posts an event that will call `RunIfPresent`. */
    method RegisterImmediate(handle: Handle)
      modifies this`pending
      ensures pending == old(pending) + multiset{handle}
    {
      pending := pending + multiset{handle};
    }

    /** The event loop delivers a posted event. */
    method DeliverEvent(handle: Handle)
      requires handle in pending
      modifies this
      ensures View() == AfterRunIfPresent(old(View()), handle)
      decreases if currentlyRunningATask then 0 else 1, 1
    {
      pending := pending - multiset{handle};
      if currentlyRunningATask {
        RegisterImmediate(handle);
      } else if handle in tasksByHandle {
        var task := tasksByHandle[handle];
        currentlyRunningATask := true;
        Run(task);
        ClearImmediate(handle);
        currentlyRunningATask := false;
      }
    }

    /** Runs a callback. */
    method Run(task: Task)
      requires currentlyRunningATask
      modifies this
      ensures View() == AfterActions(old(View()), task.actions)
      decreases 0, 3
    {
      hide AfterAction;
      var actions := task.actions;
      for i := 0 to |actions|
        invariant currentlyRunningATask
        invariant View() == AfterActions(old(View()), actions[..i])
      {
        assert actions[..i + 1][..i] == actions[..i];
        Act(actions[i]);
      }
      assert actions[..|actions|] == actions;
    }

    /** One thing that a callback does. */
    method Act(action: Action)
      requires currentlyRunningATask
      modifies this
      ensures View() == AfterAction(old(View()), action) && currentlyRunningATask
      decreases 0, 2
    {
      match action
      case Schedule(t) => var _ := SetImmediate(t);
      case Clear(h) => ClearImmediate(h);
      case NestedEvent(h) =>
        if h in pending {
          DeliverEvent(h);
        }
    }
  }

  // ---- Every run

  /** The scheduler and what happened so far: `current` is the running handle, `started` the handles that have run
      in order, `cleared` those that were cleared before they could start, `log` the starts and ends of tasks. */
  datatype History = History(
    core: Core, current: Option<Handle>, started: seq<Handle>, cleared: set<Handle>, log: seq<Mark>)

  datatype Mark = Begin(handle: Handle) | End(handle: Handle)

  /** Any code may call `setImmediate` and `clearImmediate` at any time, inside or outside of a task; events are
      delivered in any order, also inside a task; a running task ends, normally or by throwing. */
  datatype Step = SetCall(task: Task) | ClearCall(handle: Handle) | Event(handle: Handle) | TaskEnds

  predicate Enabled(s: History, step: Step) {
    match step
    case Event(h) => h in s.core.pending
    case TaskEnds => s.current.Some?
    case _ => true
  }

  function Do(s: History, step: Step): History
    requires Enabled(s, step)
  {
    match step
    case SetCall(task) => s.(core := AfterSet(s.core, task))
    case ClearCall(h) =>
      s.(core := AfterClear(s.core, h),
         cleared := if h in s.core.tasks && s.current != Some(h) then s.cleared + {h} else s.cleared)
    case Event(h) =>
      var next := s.(core := AfterEvent(s.core, h));
      if s.core.running || h !in s.core.tasks then next
      else next.(current := Some(h), started := s.started + [h], log := s.log + [Begin(h)])
    case TaskEnds =>
      History(AfterTask(s.core, s.current.value), None, s.started, s.cleared, s.log + [End(s.current.value)])
  }

  function Start(): History {
    History(Core(1, map[], false, multiset{}), None, [], {}, [])
  }

  ghost predicate Distinct(s: seq<Handle>) {
    forall i, j | 0 <= i < j < |s| :: s[i] != s[j]
  }

  predicate Allocated(s: History, h: Handle) {
    1 <= h < s.core.nextHandle
  }

  ghost predicate HandlesInv(s: History) {
    && s.core.nextHandle >= 1
    && (s.core.running <==> s.current.Some?)
    && Distinct(s.started)
    && (s.current.Some? ==> s.current.value in s.started)
    && (forall h | Allocated(s, h) :: h in s.core.tasks || h in s.started || h in s.cleared)
    && (forall h | h in s.cleared :: h !in s.started && h !in s.core.tasks && Allocated(s, h))
    && (forall h | h in s.started :: Allocated(s, h) && (h in s.core.tasks ==> s.current == Some(h)))
    && (forall h | h in s.core.tasks :: Allocated(s, h))
  }

  ghost predicate EventsInv(s: History) {
    forall h :: s.core.pending[h] <= 1
                && (h in s.started ==> s.core.pending[h] == 0)
                && (h in s.core.tasks && h !in s.started ==> s.core.pending[h] == 1)
                && (s.core.pending[h] == 1 ==> Allocated(s, h))
  }

  /** The log is a flat sequence of task runs: each one ends before the next one begins. */
  ghost predicate Flat(s: History) {
    && FlatLog(s.log)
    && (s.current.Some? <==> |s.log| % 2 == 1)
    && (s.current.Some? ==> s.log[|s.log| - 1] == Begin(s.current.value))
  }

  ghost predicate Inv(s: History) {
    HandlesInv(s) && EventsInv(s) && Flat(s)
  }

  lemma StepKeepsHandles(s: History, step: Step)
    requires Inv(s) && Enabled(s, step)
    ensures HandlesInv(Do(s, step))
  {
    hide Flat, EventsInv;
  }

  lemma StepKeepsEvents(s: History, step: Step)
    requires Inv(s) && Enabled(s, step)
    ensures EventsInv(Do(s, step))
  {
    hide Flat, Distinct;
  }

  lemma StepKeepsFlat(s: History, step: Step)
    requires Inv(s) && Enabled(s, step)
    ensures Flat(Do(s, step))
  {
  }

  ghost predicate FlatLog(log: seq<Mark>) {
    && (forall k | 0 <= k < |log| :: log[k].Begin? <==> k % 2 == 0)
    && (forall k | 0 <= k < |log| && log[k].End? :: k > 0 && log[k].handle == log[k - 1].handle)
  }

  ghost predicate IsRun(ss: seq<History>, steps: seq<Step>) {
    && |ss| == |steps| + 1
    && ss[0] == Start()
    && forall k | 0 <= k < |steps| :: Enabled(ss[k], steps[k]) && ss[k + 1] == Do(ss[k], steps[k])
  }

  lemma {:induction false} RunsKeepInv(ss: seq<History>, steps: seq<Step>, k: nat)
    requires IsRun(ss, steps) && k < |ss|
    ensures Inv(ss[k])
  {
    hide Enabled, Do, HandlesInv, EventsInv, Flat;
    if k == 0 {
      StartInv();
    } else {
      RunsKeepInv(ss, steps, k - 1);
      StepKeepsHandles(ss[k - 1], steps[k - 1]);
      StepKeepsEvents(ss[k - 1], steps[k - 1]);
      StepKeepsFlat(ss[k - 1], steps[k - 1]);
    }
  }

  lemma StartInv()
    ensures Inv(Start())
  {
  }

  /** No task runs inside another one: in every run, each task ends before the next one begins. */
  lemma TasksNeverNest(ss: seq<History>, steps: seq<Step>, k: nat)
    requires IsRun(ss, steps) && k < |ss|
    ensures FlatLog(ss[k].log)
  {
    RunsKeepInv(ss, steps, k);
  }

  /** Each handle that was given out starts at most once. */
  lemma HandlesRunAtMostOnce(ss: seq<History>, steps: seq<Step>, k: nat)
    requires IsRun(ss, steps) && k < |ss|
    ensures Distinct(ss[k].started)
    ensures forall h | h in ss[k].started :: Allocated(ss[k], h)
  {
    RunsKeepInv(ss, steps, k);
  }

  lemma NextHandleGrows(s: History, step: Step)
    requires Enabled(s, step)
    ensures Do(s, step).core.nextHandle == s.core.nextHandle + if step.SetCall? then 1 else 0
  {
  }

  lemma {:induction false} NextHandleNeverFalls(ss: seq<History>, steps: seq<Step>, i: nat, j: nat)
    requires IsRun(ss, steps) && i <= j < |ss|
    ensures 0 < ss[i].core.nextHandle <= ss[j].core.nextHandle
    decreases j
  {
    hide Enabled, Do;
    RunsKeepInv(ss, steps, i);
    if i < j {
      NextHandleNeverFalls(ss, steps, i, j - 1);
      NextHandleGrows(ss[j - 1], steps[j - 1]);
    }
  }

  /** Handles are positive and never reused: the handle of a later call of `setImmediate` is greater than that of an
      earlier one. */
  lemma HandlesAreNeverReused(ss: seq<History>, steps: seq<Step>, i: nat, j: nat)
    requires IsRun(ss, steps) && i < j < |steps| && steps[i].SetCall? && steps[j].SetCall?
    ensures 0 < ss[i].core.nextHandle < ss[j].core.nextHandle
    ensures ss[i + 1].core.tasks == ss[i].core.tasks[ss[i].core.nextHandle := steps[i].task]
  {
    NextHandleGrows(ss[i], steps[i]);
    NextHandleNeverFalls(ss, steps, i, i);
    NextHandleNeverFalls(ss, steps, i + 1, j);
  }

  /** Nothing is lost: every handle that was given out and has neither started nor been cleared has exactly one
      posted event, however often that event was put off. */
  lemma WaitingHandlesHaveOneEvent(ss: seq<History>, steps: seq<Step>, k: nat, h: Handle)
    requires IsRun(ss, steps) && k < |ss|
    requires Allocated(ss[k], h) && h !in ss[k].started && h !in ss[k].cleared
    ensures ss[k].core.pending[h] == 1 && h in ss[k].core.tasks
  {
    RunsKeepInv(ss, steps, k);
  }

  lemma StepKeepsCleared(s: History, step: Step, h: Handle)
    requires Enabled(s, step) && h in s.cleared
    ensures h in Do(s, step).cleared && |s.started| <= |Do(s, step).started|
  {
  }

  /** A handle that was cleared before it started never starts. */
  lemma {:induction false} ClearedNeverStarts(ss: seq<History>, steps: seq<Step>, i: nat, k: nat, h: Handle)
    requires IsRun(ss, steps) && i <= k < |ss| && h in ss[i].cleared
    ensures h in ss[k].cleared && h !in ss[k].started
    decreases k
  {
    hide Enabled, Do;
    RunsKeepInv(ss, steps, k);
    if i < k {
      ClearedNeverStarts(ss, steps, i, k - 1, h);
      StepKeepsCleared(ss[k - 1], steps[k - 1], h);
    }
  }

  /** `clearImmediate` before the start does clear. */
  lemma ClearingClears(s: History, h: Handle)
    requires Inv(s) && Allocated(s, h) && h !in s.started
    ensures h in Do(s, ClearCall(h)).cleared
  {
  }

  // ---- What becomes of a posted event

  /** A delivered event: while a task is running it is put off and stays posted, and nothing else happens.  Otherwise it
      is used up, whether or not its task is still there, and the task starts if it is. */
  lemma DeliveredEvent(s: History, h: Handle)
    requires Inv(s) && h in s.core.pending
    ensures var t := Do(s, Event(h));
            && t.core.tasks == s.core.tasks && t.core.nextHandle == s.core.nextHandle
            && (s.core.running ==> t.core == s.core && t.started == s.started)
            && (!s.core.running ==>
                  && t.core.pending[h] == s.core.pending[h] - 1
                  && (forall g | g != h :: t.core.pending[g] == s.core.pending[g])
                  && (if h in s.core.tasks then t.core.running && t.current == Some(h) && t.started == s.started + [h]
                      else !t.core.running && t.current == None && t.started == s.started))
  {
    hide Flat;
  }

  /** Nothing is posted for ever: once the event of a cleared handle is delivered with no task running, it is never
      posted again. */
  lemma {:induction false} ClearedEventIsUsedUp(ss: seq<History>, steps: seq<Step>, j: nat, k: nat, h: Handle)
    requires IsRun(ss, steps) && j < k < |ss| && steps[j] == Event(h)
    requires h in ss[j].cleared && !ss[j].core.running
    ensures h !in ss[k].core.pending && h in ss[k].cleared
    decreases k
  {
    hide Enabled, Do, Flat;
    RunsKeepInv(ss, steps, k - 1);
    if k == j + 1 {
      assert Enabled(ss[j], steps[j]);
      DeliveredOne(ss[j], h);
    } else {
      ClearedEventIsUsedUp(ss, steps, j, k - 1, h);
      NotPostedAgain(ss[k - 1], steps[k - 1], h);
    }
    ClearedNeverStarts(ss, steps, j, k, h);
  }

  lemma DeliveredOne(s: History, h: Handle)
    requires Inv(s) && Enabled(s, Event(h)) && !s.core.running
    ensures h !in Do(s, Event(h)).core.pending
  {
    hide Flat, HandlesInv;
  }

  lemma NotPostedAgain(s: History, step: Step, h: Handle)
    requires Inv(s) && Enabled(s, step) && h in s.cleared && h !in s.core.pending
    ensures h !in Do(s, step).core.pending
  {
    hide Flat;
  }

  // ---- The actions of a callback happen in order

  lemma {:induction false} ActionsInOrder(c: Core, first: seq<Action>, then': seq<Action>)
    ensures AfterActions(c, first + then') == AfterActions(AfterActions(c, first), then')
    decreases |then'|
  {
    var all := first + then';
    if then' == [] {
      assert all == first;
    } else {
      assert all[..|all| - 1] == first + then'[..|then'| - 1];
      ActionsInOrder(c, first, then'[..|then'| - 1]);
    }
  }

  /** What one action of a running callback does; an event that is delivered inside it is put off. */
  lemma OneAction(c: Core, a: Action)
    requires c.running
    ensures var d := AfterActions(c, [a]);
            match a
            case Schedule(task) =>
              d == Core(c.nextHandle + 1, c.tasks[c.nextHandle := task], true, c.pending + multiset{c.nextHandle})
            case Clear(h) => d == Core(c.nextHandle, c.tasks - {h}, true, c.pending)
            case NestedEvent(_) => d == c
  {
    assert [a][..0] == [];
  }

  // ---- A call of `runIfPresent` is a run of steps

  function DoAction(s: History, a: Action): History {
    match a
    case Schedule(task) => Do(s, SetCall(task))
    case Clear(h) => Do(s, ClearCall(h))
    case NestedEvent(h) => if s.core.running && h in s.core.pending then Do(s, Event(h)) else s
  }

  function DoActions(s: History, actions: seq<Action>): History {
    if actions == [] then s
    else DoAction(DoActions(s, actions[..|actions| - 1]), actions[|actions| - 1])
  }

  function EndTask(s: History): History {
    if s.current.Some? then Do(s, TaskEnds) else s
  }

  lemma {:induction false} ActionsKeepInv(s: History, actions: seq<Action>)
    requires Inv(s) && s.current.Some?
    ensures var t := DoActions(s, actions);
            Inv(t) && t.current == s.current && t.core == AfterActions(s.core, actions)
            && t.started == s.started && t.log == s.log
  {
    hide HandlesInv, EventsInv, Flat, AfterSet, AfterClear;
    if actions != [] {
      var n := |actions| - 1;
      ActionsKeepInv(s, actions[..n]);
      ActionKeepsInv(DoActions(s, actions[..n]), actions[n]);
    }
  }

  lemma ActionKeepsInv(s: History, a: Action)
    requires Inv(s) && s.current.Some?
    ensures var t := DoAction(s, a);
            Inv(t) && t.current == s.current && t.core == AfterAction(s.core, a)
            && t.started == s.started && t.log == s.log
  {
  }

  /** The method's effect is a run: the callback starts, does its actions and ends.  It starts exactly if its handle
      is present and no other callback is running. */
  lemma RunIfPresentIsARun(s: History, h: Handle)
    requires Inv(s) && h in s.core.pending
    ensures var begun := Do(s, Event(h));
            var done := if s.core.running || h !in s.core.tasks then begun
                        else EndTask(DoActions(begun, s.core.tasks[h].actions));
            && Inv(done) && done.core == AfterRunIfPresent(s.core, h)
            && done.started == s.started + if s.core.running || h !in s.core.tasks then [] else [h]
  {
    hide EventsInv, Flat, AfterActions, DoActions, AfterClear;
    var begun := Do(s, Event(h));
    StepKeepsHandles(s, Event(h));
    StepKeepsEvents(s, Event(h));
    StepKeepsFlat(s, Event(h));
    if !s.core.running && h in s.core.tasks {
      var actions := s.core.tasks[h].actions;
      ActionsKeepInv(begun, actions);
      var acted := DoActions(begun, actions);
      StepKeepsHandles(acted, TaskEnds);
      StepKeepsEvents(acted, TaskEnds);
      StepKeepsFlat(acted, TaskEnds);
    }
  }
}
