/** What a restore does, as a list of tasks, and what may be observed of a run that
    works through them: the events it may log and the bytes it may change. */
module RestoreScript {
  import opened Bytes
  import opened RestorePlan

  datatype Task =
    | Report(step: RestoreStep)
    // The disk is looked at, and is still the selected one.
    | Identify
    | Checkpoint
    | Store(offset: nat, data: seq<Byte>)
    // Another program or the operating system may write anything in [lo, hi).
    | Foreign(lo: nat, hi: nat)
    | Release
    | Flush
    | Reread
  {
    predicate Writes() { Store? || Foreign? }
  }

  datatype Event =
    | Reported(step: RestoreStep)
    | Identified
    | Asked(cancelled: bool)
    | Stored(offset: nat, data: seq<Byte>)
    | ForeignWrote(offset: nat, data: seq<Byte>)
    | ForeignDone
    | Released
    | Flushed
    | RereadDone
    // The run has failed, and handed back a text or none.
    | GaveUp(explained: bool)
  {
    predicate Writes() { Stored? || ForeignWrote? }
  }

  /** How far a run has come. A store task may be partly done. */
  datatype Position =
    | Running(task: nat, written: nat)
    | Stopping(cancelled: bool)
    | OffScript

  /** One event, at a task that is being worked on. */
  function Work(script: seq<Task>, task: nat, written: nat, event: Event): Position
  {
    if event.GaveUp? then (if event.explained then Stopping(false) else OffScript)
    else if task >= |script| then OffScript
    else
      match script[task]
      case Report(step) => if event == Reported(step) then Running(task + 1, 0) else OffScript
      case Identify => if event == Identified then Running(task + 1, 0) else OffScript
      case Checkpoint =>
        if !event.Asked? then OffScript
        else if event.cancelled then Stopping(true)
        else Running(task + 1, 0)
      case Store(offset, data) =>
        if !event.Stored? || event.offset != offset + written || event.data == []
           || !(event.data <= data[Min(written, |data|)..])
        then OffScript
        else if written + |event.data| == |data| then Running(task + 1, 0)
        else Running(task, written + |event.data|)
      case Foreign(lo, hi) =>
        if event.ForeignWrote? && lo <= event.offset && event.offset + |event.data| <= hi then Running(task, written)
        else if event == ForeignDone then Running(task + 1, 0)
        else OffScript
      case Release => if event == Released then Running(task + 1, 0) else OffScript
      case Flush => if event == Flushed then Running(task + 1, 0) else OffScript
      case Reread => if event == RereadDone then Running(task + 1, 0) else OffScript
  }

  function Advance(script: seq<Task>, position: Position, event: Event): Position
  {
    match position
    case Running(task, written) => Work(script, task, written, event)
    // Cleaning up: the mapping is released and the table re-read, but nothing is written.
    case Stopping(_) => if event in {Released, Flushed, RereadDone} then position else OffScript
    case OffScript => OffScript
  }

  /** Where a log leads. */
  function Walk(script: seq<Task>, log: seq<Event>): Position
    decreases |log|
  {
    if log == [] then Running(0, 0) else Advance(script, Walk(script, log[..|log| - 1]), log[|log| - 1])
  }

  predicate Follows(script: seq<Task>, log: seq<Event>)
  {
    !Walk(script, log).OffScript?
  }

  predicate Completes(script: seq<Task>, log: seq<Event>)
  {
    Walk(script, log) == Running(|script|, 0)
  }

  function StepsReported(log: seq<Event>): seq<RestoreStep>
    decreases |log|
  {
    if log == [] then []
    else
      var last := log[|log| - 1];
      StepsReported(log[..|log| - 1]) + if last.Reported? then [last.step] else []
  }

  function StepsPlanned(script: seq<Task>): seq<RestoreStep>
    decreases |script|
  {
    if script == [] then []
    else
      var last := script[|script| - 1];
      StepsPlanned(script[..|script| - 1]) + if last.Report? then [last.step] else []
  }

  /** What was answered, question by question. */
  function Answers(log: seq<Event>): seq<bool>
    decreases |log|
  {
    if log == [] then []
    else
      var last := log[|log| - 1];
      Answers(log[..|log| - 1]) + if last.Asked? then [last.cancelled] else []
  }

  /** How often a script asks. */
  function Questions(script: seq<Task>): nat
    decreases |script|
  {
    if script == [] then 0
    else Questions(script[..|script| - 1]) + if script[|script| - 1] == Checkpoint then 1 else 0
  }

  /** The disk after a write, if the write lies on it. */
  function Laid(disk: seq<Byte>, offset: nat, data: seq<Byte>): (r: seq<Byte>)
    ensures |r| == |disk|
  {
    if offset + |data| <= |disk| then Splice(disk, offset, data) else disk
  }

  /** The disk after everything a log says was written to it. */
  function Replay(disk: seq<Byte>, log: seq<Event>): (r: seq<Byte>)
    ensures |r| == |disk|
    decreases |log|
  {
    if log == [] then disk
    else
      var last := log[|log| - 1];
      var before := Replay(disk, log[..|log| - 1]);
      if last.Writes() then Laid(before, last.offset, last.data) else before
  }

  /** The disk after the stores of a list of tasks, each done in full. */
  function Performed(disk: seq<Byte>, tasks: seq<Task>): (r: seq<Byte>)
    ensures |r| == |disk|
    decreases |tasks|
  {
    if tasks == [] then disk
    else
      var last := tasks[|tasks| - 1];
      var before := Performed(disk, tasks[..|tasks| - 1]);
      if last.Store? then Laid(before, last.offset, last.data) else before
  }

  /** The tasks of a list, found in the script from some number on. */
  predicate Holds(script: seq<Task>, first: nat, tasks: seq<Task>)
  {
    first + |tasks| <= |script| && forall k :: first <= k < first + |tasks| ==> script[k] == tasks[k - first]
  }

  // ----- one more event -----

  lemma Logged(script: seq<Task>, disk: seq<Byte>, log: seq<Event>, event: Event)
    ensures Walk(script, log + [event]) == Advance(script, Walk(script, log), event)
    ensures StepsReported(log + [event]) == StepsReported(log) + if event.Reported? then [event.step] else []
    ensures Answers(log + [event]) == Answers(log) + if event.Asked? then [event.cancelled] else []
    ensures Replay(disk, log + [event])
         == if event.Writes() then Laid(Replay(disk, log), event.offset, event.data) else Replay(disk, log)
  {
    assert (log + [event])[..|log|] == log;
  }

  lemma NextTask(script: seq<Task>, disk: seq<Byte>, k: nat)
    requires k < |script|
    ensures StepsPlanned(script[..k + 1]) == StepsPlanned(script[..k]) + if script[k].Report? then [script[k].step] else []
    ensures Questions(script[..k + 1]) == Questions(script[..k]) + if script[k] == Checkpoint then 1 else 0
    ensures Performed(disk, script[..k + 1])
         == if script[k].Store? then Laid(Performed(disk, script[..k]), script[k].offset, script[k].data)
            else Performed(disk, script[..k])
  {
    assert script[..k + 1][..k] == script[..k];
  }

  // ----- every run reports a prefix of the plan -----

  lemma {:induction false} RunningReports(script: seq<Task>, log: seq<Event>)
    requires Walk(script, log).Running?
    ensures Walk(script, log).task <= |script|
    ensures StepsReported(log) == StepsPlanned(script[..Walk(script, log).task])
    decreases |log|
  {
    if log != [] {
      var rest, last := log[..|log| - 1], log[|log| - 1];
      RunningReports(script, rest);
      var task := Walk(script, rest).task;
      if task < |script| {
        NextTask(script, [], task);
      }
    }
  }

  lemma {:induction false} PlannedPrefix(script: seq<Task>, k: nat)
    requires k <= |script|
    ensures StepsPlanned(script[..k]) <= StepsPlanned(script)
    decreases |script| - k
  {
    if k < |script| {
      NextTask(script, [], k);
      PlannedPrefix(script, k + 1);
    } else {
      assert script[..k] == script;
    }
  }

  lemma StoppingReportsNothing(script: seq<Task>, position: Position, event: Event)
    requires Advance(script, position, event).Stopping?
    ensures !position.OffScript? && !event.Reported?
  {}

  /** Whatever happens, the steps reported are a prefix of those planned; all of them on completion. */
  lemma {:induction false} StepsFollowPlan(script: seq<Task>, log: seq<Event>)
    requires Follows(script, log)
    ensures StepsReported(log) <= StepsPlanned(script)
    ensures Completes(script, log) ==> StepsReported(log) == StepsPlanned(script)
    decreases |log|
  {
    if Walk(script, log).Running? {
      RunningReports(script, log);
      PlannedPrefix(script, Walk(script, log).task);
      assert script[..|script|] == script;
    } else {
      var rest := log[..|log| - 1];
      StoppingReportsNothing(script, Walk(script, rest), log[|log| - 1]);
      hide Advance, StepsPlanned;
      StepsFollowPlan(script, rest);
    }
  }

  // ----- every answer is obeyed -----

  /** That many times no. */
  function Noes(count: nat): (answers: seq<bool>)
    ensures |answers| == count && true !in answers
  {
    seq(count, _ => false)
  }

  lemma NothingDone(script: seq<Task>)
    ensures Walk(script, []) == Running(0, 0)
  {}

  lemma LastStep(script: seq<Task>, log: seq<Event>)
    requires log != []
    ensures Walk(script, log) == Advance(script, Walk(script, log[..|log| - 1]), log[|log| - 1])
  {}

  lemma ToldToGoOn(script: seq<Task>, position: Position, event: Event)
    requires Advance(script, position, event).Running?
    ensures position.Running? && position.task < |script|
    ensures var after := Advance(script, position, event).task;
            if event.Asked? then !event.cancelled && script[position.task] == Checkpoint && after == position.task + 1
            else after == position.task || (after == position.task + 1 && script[position.task] != Checkpoint)
  {}

  /** A run still at work has been told no at every question so far. */
  lemma {:induction false} RunningWasTold(script: seq<Task>, log: seq<Event>)
    requires Walk(script, log).Running?
    ensures Walk(script, log).task <= |script|
    ensures Answers(log) == Noes(Questions(script[..Walk(script, log).task]))
    decreases |log|
  {
    if log == [] {
      assert script[..0] == [];
    } else {
      var rest, last := log[..|log| - 1], log[|log| - 1];
      LastStep(script, log);
      assert Answers(log) == Answers(rest) + if last.Asked? then [last.cancelled] else [];
      hide Walk, Advance, Questions, Answers;
      ToldToGoOn(script, Walk(script, rest), last);
      RunningWasTold(script, rest);
      NextTask(script, [], Walk(script, rest).task);
    }
  }

  lemma AskedWhileRunning(script: seq<Task>, position: Position, event: Event)
    requires !Advance(script, position, event).OffScript?
    ensures !position.OffScript?
    ensures position.Stopping? ==> !event.Asked? && Advance(script, position, event) == position
    ensures position.Running? ==>
              (Advance(script, position, event) == Stopping(true) <==> event == Asked(true))
  {}

  /** A run stops for an answer exactly if it is a yes, and then it has asked for the last time. */
  lemma {:induction false} YesIsObeyed(script: seq<Task>, log: seq<Event>)
    requires Follows(script, log)
    ensures Walk(script, log) == Stopping(true) <==> true in Answers(log)
    ensures forall k :: 0 <= k < |Answers(log)| - 1 ==> !Answers(log)[k]
    decreases |log|
  {
    if log != [] {
      var rest, last := log[..|log| - 1], log[|log| - 1];
      AskedWhileRunning(script, Walk(script, rest), last);
      YesIsObeyed(script, rest);
      if Walk(script, rest).Running? {
        RunningWasTold(script, rest);
      }
      hide Advance, Questions;
      assert Answers(log) == Answers(rest) + if last.Asked? then [last.cancelled] else [];
    }
  }

  // ----- nothing is written before the point of no return -----

  /** Tasks before `point` write nothing, the one at `point` reports the first destructive step,
      and cancellation is possible only before it. */
  predicate TurnsDestructiveAt(script: seq<Task>, point: nat)
  {
    && point < |script| && script[point].Report? && ChangesDiskContents(script[point].step)
    && (forall k :: 0 <= k < point ==> !script[k].Writes())
    && (forall k :: 0 <= k < point && script[k].Report? ==> !ChangesDiskContents(script[k].step))
    && (forall k :: point <= k < |script| ==> script[k] != Checkpoint)
  }

  predicate WritesNothing(log: seq<Event>)
  {
    forall i :: 0 <= i < |log| ==> !log[i].Writes()
  }

  /** A step that stays at or before a point, from a task that writes nothing, writes nothing. */
  lemma QuietStep(script: seq<Task>, point: nat, position: Position, event: Event)
    requires TurnsDestructiveAt(script, point)
    requires Advance(script, position, event).Running? && Advance(script, position, event).task <= point
    ensures position.Running? && position.task <= point && !event.Writes()
  {}

  lemma {:induction false} QuietBeforePoint(script: seq<Task>, point: nat, log: seq<Event>)
    requires TurnsDestructiveAt(script, point)
    requires Walk(script, log).Running? && Walk(script, log).task <= point
    ensures WritesNothing(log)
    decreases |log|
  {
    hide TurnsDestructiveAt, Advance;
    if log != [] {
      QuietStep(script, point, Walk(script, log[..|log| - 1]), log[|log| - 1]);
      QuietBeforePoint(script, point, log[..|log| - 1]);
    }
  }

  /** A run that was cancelled never wrote. */
  lemma {:induction false} CancelledWroteNothing(script: seq<Task>, point: nat, log: seq<Event>)
    requires TurnsDestructiveAt(script, point) && Walk(script, log) == Stopping(true)
    ensures WritesNothing(log)
    decreases |log|
  {
    hide Walk, TurnsDestructiveAt;
    NothingDone(script);
    assert log != [];
    var rest := log[..|log| - 1];
    LastStep(script, log);
    StoppedWritesNothing(script, Walk(script, rest), log[|rest|]);
    if Walk(script, rest).Running? {
      CancelledInTime(script, point, Walk(script, rest), log[|rest|]);
      QuietBeforePoint(script, point, rest);
    } else {
      CancelledWroteNothing(script, point, rest);
    }
  }

  lemma CancelledInTime(script: seq<Task>, point: nat, position: Position, event: Event)
    requires TurnsDestructiveAt(script, point) && position.Running? && Advance(script, position, event) == Stopping(true)
    ensures position.task <= point
  {}

  /** Following tasks that write nothing writes nothing. */
  lemma {:induction false} QuietScript(script: seq<Task>, log: seq<Event>)
    requires forall k :: 0 <= k < |script| ==> !script[k].Writes()
    requires Follows(script, log)
    ensures WritesNothing(log)
    decreases |log|
  {
    if log != [] {
      QuietScript(script, log[..|log| - 1]);
      assert !log[|log| - 1].Writes();
    }
  }

  lemma {:induction false} QuietReplay(disk: seq<Byte>, log: seq<Event>)
    requires WritesNothing(log)
    ensures Replay(disk, log) == disk
    decreases |log|
  {
    if log != [] {
      QuietReplay(disk, log[..|log| - 1]);
    }
  }

  /** A script asks for the last time before some point. */
  lemma {:induction false} NoMoreQuestions(script: seq<Task>, point: nat, k: nat)
    requires point <= k <= |script|
    requires forall j :: point <= j < |script| ==> script[j] != Checkpoint
    ensures Questions(script[..k]) == Questions(script[..point])
    decreases k
  {
    if k > point {
      NextTask(script, [], k - 1);
      NoMoreQuestions(script, point, k - 1);
    }
  }

  /** Whoever has written anything was told no at every question there is. */
  lemma {:induction false} WritersWereToldNo(script: seq<Task>, point: nat, log: seq<Event>)
    requires TurnsDestructiveAt(script, point) && Follows(script, log) && !WritesNothing(log)
    ensures Answers(log) == Noes(Questions(script))
    decreases |log|
  {
    var rest, last := log[..|log| - 1], log[|log| - 1];
    AskedWhileRunning(script, Walk(script, rest), last);
    if Walk(script, log).Running? {
      RunningWasTold(script, log);
      var task := Walk(script, log).task;
      if task <= point {
        QuietBeforePoint(script, point, log);
      } else {
        NoMoreQuestions(script, point, task);
        NoMoreQuestions(script, point, |script|);
        assert script[..|script|] == script;
      }
    } else {
      StoppedWritesNothing(script, Walk(script, rest), last);
      assert !WritesNothing(rest);
      WritersWereToldNo(script, point, rest);
      AskedInTime(script, point, rest, last);
    }
  }

  lemma StoppedWritesNothing(script: seq<Task>, position: Position, event: Event)
    requires Advance(script, position, event).Stopping?
    ensures !event.Writes()
  {}

  /** A question is only asked before the point of no return, where nothing has been written. */
  lemma AskedInTime(script: seq<Task>, point: nat, rest: seq<Event>, last: Event)
    requires TurnsDestructiveAt(script, point) && !WritesNothing(rest)
    requires !Walk(script, rest).OffScript? && !Advance(script, Walk(script, rest), last).OffScript?
    ensures !last.Asked?
  {
    if last.Asked? {
      QuietBeforePoint(script, point, rest);
    }
  }

  // ----- what was done stays done -----

  /** The plain event a task waits for, if it is one. */
  function AwaitedEvent(task: Task): seq<Event>
  {
    match task
    case Report(step) => [Reported(step)]
    case Identify => [Identified]
    case Release => [Released]
    case Flush => [Flushed]
    case Reread => [RereadDone]
    case Foreign(_, _) => [ForeignDone]
    case _ => []
  }

  lemma TasksInTurn(script: seq<Task>, position: Position, event: Event)
    requires Advance(script, position, event).Running?
    ensures position.Running? && position.task <= Advance(script, position, event).task <= position.task + 1
    ensures position.task < |script|
    ensures event.Asked? ==> script[position.task] == Checkpoint
    ensures event.Stored? ==> script[position.task].Store?
    ensures event.ForeignWrote? ==> script[position.task].Foreign?
    ensures AwaitedEvent(script[position.task]) != [] && Advance(script, position, event).task > position.task ==>
              event == AwaitedEvent(script[position.task])[0]
  {}

  /** A run moves on task by task and never back. */
  lemma {:induction false} RanSoFar(script: seq<Task>, log: seq<Event>, i: nat)
    requires Walk(script, log).Running? && i <= |log|
    ensures Walk(script, log[..i]).Running? && Walk(script, log[..i]).task <= Walk(script, log).task
    decreases |log|
  {
    if i == |log| {
      assert log[..i] == log;
    } else {
      var rest := log[..|log| - 1];
      LastStep(script, log);
      hide Walk, Advance;
      TasksInTurn(script, Walk(script, rest), log[|rest|]);
      RanSoFar(script, rest, i);
      assert log[..i] == rest[..i];
    }
  }

  lemma {:induction false} TaskDoneAt(script: seq<Task>, task: nat, log: seq<Event>) returns (at: nat)
    requires task < |script| && AwaitedEvent(script[task]) != []
    requires Walk(script, log).Running? && Walk(script, log).task > task
    ensures at < |log| && log[at] == AwaitedEvent(script[task])[0]
    ensures Walk(script, log[..at + 1]).Running? && Walk(script, log[..at + 1]).task == task + 1
    decreases |log|
  {
    hide Walk, Advance, AwaitedEvent;
    NothingDone(script);
    assert log != [];
    var rest := log[..|log| - 1];
    LastStep(script, log);
    TasksInTurn(script, Walk(script, rest), log[|rest|]);
    if Walk(script, rest).task > task {
      at := TaskDoneAt(script, task, rest);
      assert log[..at + 1] == rest[..at + 1];
    } else {
      at := |rest|;
      assert log[..at + 1] == log;
    }
  }

  /** A run past a task has done it, and what it has done since belongs to later tasks. */
  lemma TaskBehind(script: seq<Task>, task: nat, log: seq<Event>) returns (at: nat)
    requires task < |script| && AwaitedEvent(script[task]) != []
    requires Walk(script, log).Running? && Walk(script, log).task > task
    ensures at < |log| && log[at] == AwaitedEvent(script[task])[0]
    ensures forall i :: at < i < |log| ==> Walk(script, log[..i]).Running? && task < Walk(script, log[..i]).task
  {
    hide Walk, AwaitedEvent;
    at := TaskDoneAt(script, task, log);
    forall i | at < i < |log|
      ensures Walk(script, log[..i]).Running? && task < Walk(script, log[..i]).task
    {
      RanSoFar(script, log, i);
      RanSoFar(script, log[..i], at + 1);
      assert log[..i][..at + 1] == log[..at + 1];
    }
  }

  lemma {:induction false} FollowedSoFar(script: seq<Task>, log: seq<Event>, i: nat)
    requires Follows(script, log) && i < |log|
    ensures !Walk(script, log[..i]).OffScript?
    ensures Walk(script, log[..i + 1]) == Advance(script, Walk(script, log[..i]), log[i])
    ensures Follows(script, log[..i + 1])
    decreases |log|
  {
    var rest, last := log[..|log| - 1], log[|log| - 1];
    AskedWhileRunning(script, Walk(script, rest), last);
    if i < |rest| {
      FollowedSoFar(script, rest, i);
      assert rest[..i] == log[..i] && rest[..i + 1] == log[..i + 1];
    } else {
      assert log[..i] == rest && log[..i + 1] == log;
    }
  }

  /** What is written is what some task at that place writes. */
  lemma WrittenAtTask(script: seq<Task>, log: seq<Event>, i: nat)
    requires Follows(script, log) && i < |log| && log[i].Writes()
    ensures var position := Walk(script, log[..i]);
            && position.Running? && position.task < |script|
            && (if log[i].Stored? then script[position.task].Store? else script[position.task].Foreign?)
  {
    FollowedSoFar(script, log, i);
    hide Walk;
    WriterRuns(script, Walk(script, log[..i]), log[i]);
  }

  lemma WriterRuns(script: seq<Task>, position: Position, event: Event)
    requires !Advance(script, position, event).OffScript? && event.Writes()
    ensures position.Running? && position.task < |script|
    ensures if event.Stored? then script[position.task].Store? else script[position.task].Foreign?
  {}

  /** Of the events since, each was due at some later task. */
  lemma DueLater(script: seq<Task>, task: nat, log: seq<Event>, at: nat, i: nat)
    requires task < |script| && at < i < |log| && Walk(script, log).Running?
    requires forall k :: at < k < |log| ==> Walk(script, log[..k]).Running? && task < Walk(script, log[..k]).task
    ensures log[i].Asked? ==> exists k :: task < k < |script| && script[k] == Checkpoint
    ensures log[i].Stored? ==> exists k :: task < k < |script| && script[k].Store?
  {
    FollowedSoFar(script, log, i);
    assert i + 1 == |log| ==> log[..i + 1] == log;
    TasksInTurn(script, Walk(script, log[..i]), log[i]);
  }

  /** Any write is preceded by the report of the first destructive step. */
  lemma WritesComeAfterWarning(script: seq<Task>, point: nat, log: seq<Event>, i: nat)
    requires TurnsDestructiveAt(script, point) && Follows(script, log)
    requires i < |log| && log[i].Writes()
    ensures exists j :: 0 <= j < i && log[j] == Reported(script[point].step)
  {
    hide Walk, Advance;
    WrittenAtTask(script, log, i);
    var j := TaskBehind(script, point, log[..i]);
    assert log[j] == log[..i][j];
  }

  /** Every write comes after the disk was identified, with no question asked in between. */
  ghost predicate IdentifiedFirst(log: seq<Event>)
  {
    forall i :: 0 <= i < |log| && log[i].Writes() ==>
      exists j :: 0 <= j < i && log[j] == Identified && forall k :: j < k < i ==> !log[k].Asked?
  }

  /** Whoever writes has identified the disk before, and has not been asked anything since. */
  lemma IdentifiedBeforeWriting(script: seq<Task>, point: nat, log: seq<Event>, i: nat)
    requires TurnsDestructiveAt(script, point) && point > 0 && script[point - 1] == Identify
    requires Follows(script, log) && i < |log| && log[i].Writes()
    ensures exists j :: 0 <= j < i && log[j] == Identified && forall k :: j < k < i ==> !log[k].Asked?
  {
    hide Walk, Advance;
    WrittenAtTask(script, log, i);
    var before := log[..i];
    var j := TaskBehind(script, point - 1, before);
    forall k | j < k < i
      ensures !log[k].Asked?
    {
      DueLater(script, point - 1, before, j, k);
      assert before[k] == log[k];
    }
    assert log[j] == before[j];
  }

  /** Other programs write only once everything of the run's own was stored and then flushed. */
  lemma FlushedBeforeOthersWrite(script: seq<Task>, flush: nat, log: seq<Event>, i: nat)
    requires flush < |script| && script[flush] == Flush
    requires forall k :: 0 <= k < flush ==> !script[k].Foreign?
    requires forall k :: flush < k < |script| ==> !script[k].Store?
    requires Follows(script, log) && i < |log| && log[i].ForeignWrote?
    ensures exists j :: 0 <= j < i && log[j] == Flushed && forall k :: j < k < i ==> !log[k].Stored?
  {
    hide Walk, Advance;
    WrittenAtTask(script, log, i);
    var before := log[..i];
    var j := TaskBehind(script, flush, before);
    forall k | j < k < i
      ensures !log[k].Stored?
    {
      DueLater(script, flush, before, j, k);
      assert before[k] == log[k];
    }
    assert log[j] == before[j];
  }

  // ----- what a run leaves on the disk -----

  /** Bytes some foreign program may write. */
  predicate OpenToOthers(script: seq<Task>, i: nat)
  {
    exists k :: 0 <= k < |script| && script[k].Foreign? && script[k].lo <= i < script[k].hi
  }

  predicate StoresFit(script: seq<Task>, size: nat)
  {
    forall k :: 0 <= k < |script| && script[k].Store? ==> script[k].data != [] && script[k].offset + |script[k].data| <= size
  }

  /** The stores of the tasks done so far, and the part of the current one, as if nobody else had written. */
  function OwnBytes(script: seq<Task>, disk: seq<Byte>, position: Position): (r: seq<Byte>)
    requires position.Running? && position.task <= |script|
    ensures |r| == |disk|
  {
    var done := Performed(disk, script[..position.task]);
    if position.task < |script| && script[position.task].Store? && position.written <= |script[position.task].data|
    then Laid(done, script[position.task].offset, script[position.task].data[..position.written])
    else done
  }

  /** A position a run can be in: a store task that is all done is behind it. */
  predicate InProgress(script: seq<Task>, position: Position)
  {
    && position.Running? && position.task <= |script|
    && (position.task < |script| && script[position.task].Store? ==> position.written < |script[position.task].data|)
  }

  lemma PartialStore(disk: seq<Byte>, offset: nat, data: seq<Byte>, written: nat, more: nat)
    requires offset + |data| <= |disk| && written + more <= |data|
    ensures Laid(Laid(disk, offset, data[..written]), offset + written, data[written..written + more])
         == Laid(disk, offset, data[..written + more])
  {}

  lemma NothingStoredYet(script: seq<Task>, disk: seq<Byte>, task: nat)
    requires StoresFit(script, |disk|) && task <= |script|
    ensures InProgress(script, Running(task, 0))
    ensures OwnBytes(script, disk, Running(task, 0)) == Performed(disk, script[..task])
  {
    if task < |script| && script[task].Store? {
      assert script[task].data[..0] == [];
    }
  }

  lemma WhollyStored(script: seq<Task>, disk: seq<Byte>, task: nat)
    requires StoresFit(script, |disk|) && task < |script| && script[task].Store?
    ensures InProgress(script, Running(task + 1, 0))
    ensures OwnBytes(script, disk, Running(task + 1, 0))
         == Laid(Performed(disk, script[..task]), script[task].offset, script[task].data)
  {
    NextTask(script, disk, task);
    hide Performed, OwnBytes, Laid;
    NothingStoredYet(script, disk, task + 1);
  }

  /** Where a store task is once its first `written` bytes are done. */
  function StoredUpTo(script: seq<Task>, task: nat, written: nat): Position
    requires task < |script| && script[task].Store?
  {
    if written == |script[task].data| then Running(task + 1, 0) else Running(task, written)
  }

  /** The events a store task allows: its next bytes, one part after the other. */
  lemma StoreAdvances(script: seq<Task>, position: Position, event: Event)
    requires InProgress(script, position) && position.task < |script| && script[position.task].Store?
    requires Advance(script, position, event).Running?
    ensures var task, data, after := position.task, script[position.task].data, position.written + |event.data|;
            && event.Stored? && event.offset == script[task].offset + position.written
            && after <= |data| && event.data == data[position.written..after]
            && position == StoredUpTo(script, task, position.written)
            && Advance(script, position, event) == StoredUpTo(script, task, after)
  {}

  lemma PartlyStored(script: seq<Task>, disk: seq<Byte>, task: nat, written: nat)
    requires StoresFit(script, |disk|) && task < |script| && script[task].Store? && written <= |script[task].data|
    ensures InProgress(script, StoredUpTo(script, task, written))
    ensures OwnBytes(script, disk, StoredUpTo(script, task, written))
         == Laid(Performed(disk, script[..task]), script[task].offset, script[task].data[..written])
  {
    if written == |script[task].data| {
      WhollyStored(script, disk, task);
      assert script[task].data[..written] == script[task].data;
    }
    hide Performed, Laid;
  }

  /** One more part of a store. */
  lemma StoreEvent(script: seq<Task>, disk: seq<Byte>, position: Position, event: Event)
    requires StoresFit(script, |disk|) && InProgress(script, position)
    requires position.task < |script| && script[position.task].Store?
    requires Advance(script, position, event).Running?
    ensures InProgress(script, Advance(script, position, event)) && event.Stored?
    ensures OwnBytes(script, disk, Advance(script, position, event))
         == Laid(OwnBytes(script, disk, position), event.offset, event.data)
  {
    var task, written := position.task, position.written;
    StoreAdvances(script, position, event);
    hide Advance, Performed, Laid, OwnBytes, StoredUpTo, InProgress;
    PartlyStored(script, disk, task, written);
    PartlyStored(script, disk, task, written + |event.data|);
    PartialStore(Performed(disk, script[..task]), script[task].offset, script[task].data, written, |event.data|);
  }

  /** Any other event: nothing is written, or only what others may write. */
  lemma OtherEvent(script: seq<Task>, disk: seq<Byte>, position: Position, event: Event)
    requires StoresFit(script, |disk|) && InProgress(script, position)
    requires position.task < |script| ==> !script[position.task].Store?
    requires Advance(script, position, event).Running?
    ensures InProgress(script, Advance(script, position, event)) && !event.Stored?
    ensures OwnBytes(script, disk, Advance(script, position, event)) == OwnBytes(script, disk, position)
    ensures event.ForeignWrote? ==> forall i: nat :: event.offset <= i < event.offset + |event.data| ==> OpenToOthers(script, i)
  {
    NextTask(script, disk, position.task);
    NothingStoredYet(script, disk, position.task + 1);
    hide Performed;
  }

  /** Outside the bytes others may write, a running restore has stored exactly its tasks so far. */
  lemma {:induction false} RunningLeaves(script: seq<Task>, disk: seq<Byte>, log: seq<Event>, i: nat)
    requires StoresFit(script, |disk|) && Walk(script, log).Running?
    requires i < |disk| && !OpenToOthers(script, i)
    ensures InProgress(script, Walk(script, log))
    ensures Replay(disk, log)[i] == OwnBytes(script, disk, Walk(script, log))[i]
    decreases |log|
  {
    hide OpenToOthers, Work;
    if log == [] {
      hide OwnBytes;
      NothingStoredYet(script, disk, 0);
    } else {
      var rest, event := log[..|log| - 1], log[|log| - 1];
      var before := Walk(script, rest);
      assert before.Running?;
      hide OwnBytes;
      RunningLeaves(script, disk, rest, i);
      if before.task < |script| && script[before.task].Store? {
        StoreEvent(script, disk, before, event);
      } else {
        OtherEvent(script, disk, before, event);
      }
    }
  }

  /** A completed run leaves the stores of all its tasks, in order, wherever nobody else may write. */
  lemma CompletedLeaves(script: seq<Task>, disk: seq<Byte>, log: seq<Event>, i: nat)
    requires StoresFit(script, |disk|) && Completes(script, log)
    requires i < |disk| && !OpenToOthers(script, i)
    ensures Replay(disk, log)[i] == Performed(disk, script)[i]
  {
    RunningLeaves(script, disk, log, i);
    assert script[..|script|] == script;
  }
}
