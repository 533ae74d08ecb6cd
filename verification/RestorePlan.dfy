/** The steps each backend reports, in order, and the point of no return among them. */
module RestorePlan {

  datatype RestoreStep =
    | VerifyDisk
    | IdentifyDevice
    | Unmount
    | OpenExclusive
    | OpenDrive
    | RefreshMetadata
    | DetachDriveLetters
    | DeletePartitions
    | LockDrive
    | ClearSignatures
    | ResetToRaw
    | WritePartitionTable
    | CreatePartition
    | RereadPartitionTable
    | WaitForPartition
    | WaitForVolume
    | RefreshNewVolume
    | AssignDriveLetter
    | FormatVolume
    | Complete

  predicate ChangesDiskContents(step: RestoreStep)
  {
    match step
    case DeletePartitions | ClearSignatures | ResetToRaw | WritePartitionTable | CreatePartition | FormatVolume => true
    case _ => false
  }

  const LINUX_PLAN: seq<RestoreStep> :=
    [ VerifyDisk, IdentifyDevice, Unmount, OpenExclusive, ClearSignatures, WritePartitionTable, FormatVolume,
      RereadPartitionTable, WaitForPartition, Complete ]

  const WINDOWS_PLAN: seq<RestoreStep> :=
    [ VerifyDisk, OpenDrive, RefreshMetadata, DetachDriveLetters, DeletePartitions, LockDrive, ClearSignatures,
      ResetToRaw, CreatePartition, WaitForVolume, RefreshNewVolume, AssignDriveLetter, FormatVolume, Complete ]

  /** `n` is the 1-based number of the first step that writes, or one past the plan if none does. */
  predicate IsFirstDestructive(plan: seq<RestoreStep>, n: nat)
  {
    && 1 <= n <= |plan| + 1
    && (forall i :: 0 <= i < n - 1 ==> !ChangesDiskContents(plan[i]))
    && (n <= |plan| ==> ChangesDiskContents(plan[n - 1]))
  }

  method FirstDestructiveStepOf(plan: seq<RestoreStep>) returns (n: nat)
    ensures IsFirstDestructive(plan, n)
  {
    for index := 0 to |plan|
      invariant forall i :: 0 <= i < index ==> !ChangesDiskContents(plan[i])
    {
      if ChangesDiskContents(plan[index]) {
        return index + 1;
      }
    }
    return |plan| + 1;
  }

  /** On both systems the first four steps are harmless and the fifth is not. */
  lemma PlansTurnDestructiveAtFive(n: nat)
    ensures IsFirstDestructive(LINUX_PLAN, n) <==> n == 5
    ensures IsFirstDestructive(WINDOWS_PLAN, n) <==> n == 5
  {
    assert LINUX_PLAN[4] == ClearSignatures && WINDOWS_PLAN[4] == DeletePartitions;
  }

  // ----- the step counter -----

  /** The number of a step that is next in the plan, or 0. */
  function Numbered(plan: seq<RestoreStep>, done: nat, step: RestoreStep): (number: nat)
    requires done <= |plan|
    ensures number == 0 || number == done + 1 <= |plan|
  {
    if done >= |plan| || plan[done] != step then 0 else done + 1
  }

  class RestoreStepCounter {
    const plan: seq<RestoreStep>
    var done: nat

    ghost predicate Valid()
      reads this
    {
      done <= |plan|
    }

    constructor (plan: seq<RestoreStep>)
      ensures Valid() && this.plan == plan && done == 0
    {
      this.plan := plan;
      done := 0;
    }

    method Advance(step: RestoreStep) returns (number: nat)
      requires Valid()
      modifies this`done
      ensures Valid()
      ensures number == Numbered(plan, old(done), step)
      ensures done == if number == 0 then old(done) else number
    {
      if done >= |plan| || plan[done] != step {
        return 0;
      }
      done := done + 1;
      return done;
    }
  }

  /** The counter after a whole series of calls, or nothing once one of them was out of order. */
  predicate AllInOrder(plan: seq<RestoreStep>, done: nat, steps: seq<RestoreStep>)
    requires done <= |plan|
    decreases |steps|
  {
    steps == [] ||
    (Numbered(plan, done, steps[0]) != 0 && AllInOrder(plan, done + 1, steps[1..]))
  }

  /** No call is reported out of order exactly when the calls follow the plan. */
  lemma {:induction false} InOrderMeansPrefix(plan: seq<RestoreStep>, done: nat, steps: seq<RestoreStep>)
    requires done <= |plan|
    ensures AllInOrder(plan, done, steps) <==> steps <= plan[done..]
    decreases |steps|
  {
    if steps != [] && done < |plan| {
      InOrderMeansPrefix(plan, done + 1, steps[1..]);
      var rest := plan[done..];
      assert rest == [plan[done]] + plan[done + 1..];
      assert steps == [steps[0]] + steps[1..];
      if steps <= rest {
        assert steps[1..] == rest[..|steps|][1..];
      }
    }
  }
}
