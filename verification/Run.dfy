/** One run of a restore: its steps are counted against the plan, its questions and
    failures recorded, and everything it does follows a script. */
module Run {
  import Bytes
  import opened RestorePlan
  import opened RestoreScript
  import opened Stores
  import opened Machine
  import opened ErrorText

  class Run {
    const machine: System
    const steps: RestoreStepCounter
    ghost const script: seq<Task>
    // What whoever is asked had answered before this run, and what it has answered in it.
    ghost const earlier: seq<bool>
    ghost var answers: seq<bool>
    // Set when a step was reported out of the order of the plan.
    var outOfOrder: bool

    /** The log follows the script, and the counter has seen exactly the steps in it. */
    ghost predicate Valid()
      reads this, machine, steps
    {
      && machine.Valid() && steps.Valid()
      && Follows(script, machine.log)
      && StepsPlanned(script) <= steps.plan
      && steps.done == |StepsReported(machine.log)|
      && answers == Answers(machine.log)
      && !outOfOrder
    }

    /** Between two tasks. */
    ghost predicate At(task: nat)
      reads this, machine, steps
    {
      Valid() && Walk(script, machine.log) == Running(task, 0)
    }

    ghost predicate Working()
      reads this, machine, steps
    {
      Valid() && Walk(script, machine.log).Running?
    }

    ghost predicate Stopped(cancelled: bool)
      reads this, machine, steps
    {
      Valid() && Walk(script, machine.log) == Stopping(cancelled)
    }

    constructor (machine: System, plan: seq<RestoreStep>, ghost script: seq<Task>, ghost earlier: seq<bool>)
      requires machine.Valid() && machine.log == [] && StepsPlanned(script) <= plan
      ensures At(0) && this.machine == machine && this.script == script && fresh(steps) && steps.plan == plan
      ensures this.earlier == earlier && answers == []
    {
      this.machine := machine;
      this.script := script;
      this.earlier, answers := earlier, [];
      outOfOrder := false;
      steps := new RestoreStepCounter(plan);
    }

    /** Reports a step. One that the plan does not have next is noted and reported all the same. */
    method Report(step: RestoreStep, ghost task: nat)
      requires At(task) && task < |script| && script[task] == Task.Report(step)
      modifies this`outOfOrder, steps`done, machine`log
      ensures At(task + 1)
      ensures machine.log == old(machine.log) + [Reported(step)]
    {
      ghost var log := machine.log;
      NextStepIsPlanned(script, log, task);
      assert steps.plan[|StepsReported(log)|] == step;
      var number := steps.Advance(step);
      outOfOrder := outOfOrder || number == 0;
      Logged(script, [], log, Reported(step));
      machine.Note(Reported(step));
    }

    /** It was asked whether to stop. */
    ghost method Answered(cancelled: bool, task: nat)
      requires At(task) && task < |script| && script[task] == Checkpoint
      modifies machine`log, this`answers
      ensures answers == old(answers) + [cancelled]
      ensures cancelled ==> Stopped(true)
      ensures !cancelled ==> At(task + 1)
      ensures machine.log == old(machine.log) + [Asked(cancelled)]
    {
      Logged(script, [], machine.log, Asked(cancelled));
      answers := answers + [cancelled];
      machine.Note(Asked(cancelled));
    }

    /** The run has failed and will only clean up. It may not fail without a word. */
    ghost method GiveUp(error: ErrorText)
      requires Working() && error.SomeText?
      modifies machine`log
      ensures Stopped(false)
      ensures machine.log == old(machine.log) + [GaveUp(true)]
    {
      Logged(script, [], machine.log, GaveUp(true));
      machine.Note(GaveUp(true));
    }
  }

  /** The step of a report task is the one after those reported so far. */
  lemma NextStepIsPlanned(script: seq<Task>, log: seq<Event>, task: nat)
    requires Walk(script, log) == Running(task, 0) && task < |script| && script[task].Report?
    ensures |StepsReported(log)| < |StepsPlanned(script)|
    ensures StepsPlanned(script)[|StepsReported(log)|] == script[task].step
  {
    RunningReports(script, log);
    NextTask(script, [], task);
    PlannedPrefix(script, task + 1);
  }

  // ----- what a run does with the disk -----

  lemma TaskDone(script: seq<Task>, log: seq<Event>, task: nat)
    requires Walk(script, log) == Running(task, 0) && task < |script| && AwaitedEvent(script[task]) != []
    requires !script[task].Report?
    ensures var event := AwaitedEvent(script[task])[0];
            && !event.Writes()
            && Walk(script, log + [event]) == Running(task + 1, 0)
            && StepsReported(log + [event]) == StepsReported(log) && Answers(log + [event]) == Answers(log)
  {
    Logged(script, [], log, AwaitedEvent(script[task])[0]);
  }

  /** Releasing, flushing and re-reading are always allowed once a run has stopped. */
  lemma CleanedUp(script: seq<Task>, log: seq<Event>, event: Event)
    requires Walk(script, log).Stopping? && event in {Released, Flushed, RereadDone}
    ensures Walk(script, log + [event]) == Walk(script, log)
    ensures StepsReported(log + [event]) == StepsReported(log) && Answers(log + [event]) == Answers(log)
  {
    Logged(script, [], log, event);
  }

  lemma {:induction false} StreamsReportNothing(log: seq<Event>, events: seq<Event>, offset: nat, data: seq<Bytes.Byte>)
    requires Streams(events, offset, data)
    ensures StepsReported(log + events) == StepsReported(log) && Answers(log + events) == Answers(log)
    decreases |events|
  {
    if events == [] {
      assert log + events == log;
    } else {
      var rest := events[..|events| - 1];
      StreamsReportNothing(log, rest, offset, data[..|data| - |events[|rest|].data|]);
      assert log + events == log + rest + [events[|rest|]];
      Logged([], [], log + rest, events[|rest|]);
    }
  }

  /** After storing some of a store task's data, the script has come that far. */
  lemma StoreWalks(script: seq<Task>, disk: seq<Bytes.Byte>, log: seq<Event>, disk': seq<Bytes.Byte>, log': seq<Event>,
                   task: nat, stored: nat)
    requires task < |script| && script[task].Store? && stored <= |script[task].data| && script[task].data != []
    requires Walk(script, log) == Running(task, 0)
    requires Wrote(disk, log, disk', log', script[task].offset, script[task].data[..stored])
    ensures Walk(script, log') == StoredUpTo(script, task, stored)
    ensures StepsReported(log') == StepsReported(log) && Answers(log') == Answers(log)
  {
    var events := log'[|log|..];
    assert log' == log + events;
    StreamWalks(script, log, events, task, stored);
    StreamsReportNothing(log, events, script[task].offset, script[task].data[..stored]);
  }

  lemma ForeignAllowed(script: seq<Task>, task: nat, event: Event)
    requires task < |script| && script[task].Foreign? && event.ForeignWrote?
    requires script[task].lo <= event.offset && event.offset + |event.data| <= script[task].hi
    ensures Advance(script, Running(task, 0), event) == Running(task, 0)
  {}

  /** Other programs may write where a foreign task lets them, as often as they like. */
  lemma {:induction false} ForeignWalks(script: seq<Task>, log: seq<Event>, log': seq<Event>, task: nat)
    requires task < |script| && script[task].Foreign?
    requires Walk(script, log) == Running(task, 0) && log <= log'
    requires forall k :: |log| <= k < |log'| ==>
               log'[k].ForeignWrote? && script[task].lo <= log'[k].offset
               && log'[k].offset + |log'[k].data| <= script[task].hi
    ensures Walk(script, log') == Running(task, 0)
    ensures StepsReported(log') == StepsReported(log) && Answers(log') == Answers(log)
    decreases |log'|
  {
    if |log'| > |log| {
      var rest := log'[..|log'| - 1];
      ForeignWalks(script, log, rest, task);
      assert log' == rest + [log'[|rest|]];
      hide Advance;
      ForeignAllowed(script, task, log'[|rest|]);
      Logged(script, [], rest, log'[|rest|]);
    } else {
      assert log' == log;
    }
  }
}
