/**
 `RestoreAsync` of src/AtlasGT.Infrastructure/FileBackupService.cs: extract beside the destination, swap
 by two directory moves, undo the first if the second fails, clean up. Any operation may throw.
 */
module Restore {
  import opened Results

  /** The files of a directory tree, by path. */
  type Tree = map<string, string>

  /** The three directories; none means the directory does not exist. */
  datatype FileSystem = FileSystem(dest: Option<Tree>, staging: Option<Tree>, rollback: Option<Tree>)

  datatype Exception = InvalidData | IoError | Unauthorized | Other

  /** The operations that can throw. */
  datatype Operation =
    | Extract | ListStaged | DeleteEmptyStaging | MoveDestAway | MoveStagingIn | MoveBack | DeleteRollback
    | CleanStaging | CleanRollback

  /**
   Which operations throw, and what they leave. A move is atomic; a failed extraction leaves some staging
   directory or none, and a failed deletion leaves some of the directory.
   */
  datatype Faults = Faults(throws: Operation -> Option<Exception>, partial: Option<Tree>, remains: Operation -> Tree)

  datatype Outcome = Returned(ok: bool) | Threw(exception: Exception)

  /** The file system after every operation so far, the last one current. */
  type Trace = t: seq<FileSystem> | t != [] witness [FileSystem(None, None, None)]

  function Now(trace: Trace): FileSystem {
    trace[|trace| - 1]
  }

  // ---------- the operations ----------

  predicate Works(faults: Faults, op: Operation) {
    faults.throws(op).None?
  }

  /** Deleting the staging directory, where failing is ignored. */
  function StagingDeleted(trace: Trace, faults: Faults, op: Operation): Trace {
    if Now(trace).staging.None? then trace
    else if Works(faults, op) then trace + [Now(trace).(staging := None)]
    else trace + [Now(trace).(staging := Some(faults.remains(op)))]
  }

  function RollbackDeleted(trace: Trace, faults: Faults, op: Operation): Trace {
    if Now(trace).rollback.None? then trace
    else if Works(faults, op) then trace + [Now(trace).(rollback := None)]
    else trace + [Now(trace).(rollback := Some(faults.remains(op)))]
  }

  /** The outer `catch` clauses. */
  function Handled(trace: Trace, faults: Faults, exception: Exception): (Trace, Outcome) {
    match exception
    case InvalidData => (StagingDeleted(trace, faults, CleanStaging), Returned(false))
    case Other => (trace, Threw(Other))
    case _ => (RollbackDeleted(StagingDeleted(trace, faults, CleanStaging), faults, CleanRollback), Returned(false))
  }

  /** The swap has failed with the destination moved away, or not. */
  function Compensated(trace: Trace, faults: Faults, rollbackMoved: bool): Trace {
    if rollbackMoved && Now(trace).rollback.Some? && Now(trace).dest.None? && Works(faults, MoveBack)
    then trace + [Now(trace).(dest := Now(trace).rollback, rollback := None)]
    else trace
  }

  /** Steps 3 to 6: from a staging directory with files to the end. */
  function Swapped(trace: Trace, faults: Faults): (Trace, Outcome) {
    var destExisted := Now(trace).dest.Some?;
    if destExisted && !Works(faults, MoveDestAway) then
      Handled(Compensated(trace, faults, false), faults, faults.throws(MoveDestAway).value)
    else
      var moved := if destExisted then trace + [Now(trace).(dest := None, rollback := Now(trace).dest)] else trace;
      if !Works(faults, MoveStagingIn) then
        Handled(Compensated(moved, faults, destExisted), faults, faults.throws(MoveStagingIn).value)
      else
        var swapped := moved + [Now(moved).(dest := Now(moved).staging, staging := None)];
        (RollbackDeleted(swapped, faults, DeleteRollback), Returned(true))
  }

  /** The whole operation on a zip with these files, or on a missing zip. */
  function Restored(start: FileSystem, zip: Option<Tree>, faults: Faults): (Trace, Outcome) {
    var trace: Trace := [start];
    if zip.None? then (trace, Returned(false))
    else if !Works(faults, Extract) then
      Handled(trace + [start.(staging := faults.partial)], faults, faults.throws(Extract).value)
    else
      var extracted := trace + [start.(staging := zip)];
      if !Works(faults, ListStaged) then Handled(extracted, faults, faults.throws(ListStaged).value)
      else if zip.value == map[] then (StagingDeleted(extracted, faults, DeleteEmptyStaging), Returned(false))
      else Swapped(extracted, faults)
  }

  // ---------- the method ----------

  class FileBackupService {
    var fs: FileSystem
    /** The file system after every operation of the current restore. */
    ghost var trace: seq<FileSystem>

    constructor (fs: FileSystem)
      ensures this.fs == fs && trace == [fs]
    {
      this.fs, trace := fs, [fs];
    }

    ghost predicate Valid()
      reads this
    {
      trace != [] && fs == trace[|trace| - 1]
    }

    /** One change of the file system. */
    method Become(next: FileSystem)
      requires Valid()
      modifies this
      ensures Valid() && trace == old(trace) + [next]
    {
      fs := next;
      trace := trace + [next];
    }

    method DeleteStaging(faults: Faults, op: Operation)
      requires Valid()
      modifies this
      ensures Valid() && trace == StagingDeleted(old(trace), faults, op)
    {
      if fs.staging.Some? {
        Become(if Works(faults, op) then fs.(staging := None) else fs.(staging := Some(faults.remains(op))));
      }
    }

    method DeleteRollbackDir(faults: Faults, op: Operation)
      requires Valid()
      modifies this
      ensures Valid() && trace == RollbackDeleted(old(trace), faults, op)
    {
      if fs.rollback.Some? {
        Become(if Works(faults, op) then fs.(rollback := None) else fs.(rollback := Some(faults.remains(op))));
      }
    }

    method Handle(faults: Faults, exception: Exception) returns (outcome: Outcome)
      requires Valid()
      modifies this
      ensures Valid() && (trace, outcome) == Handled(old(trace), faults, exception)
    {
      match exception {
        case InvalidData =>
          DeleteStaging(faults, CleanStaging);
          outcome := Returned(false);
        case Other =>
          outcome := Threw(Other);
        case _ =>
          DeleteStaging(faults, CleanStaging);
          DeleteRollbackDir(faults, CleanRollback);
          outcome := Returned(false);
      }
    }

    method Restore(zip: Option<Tree>, faults: Faults) returns (outcome: Outcome)
      modifies this
      ensures Valid() && (trace, outcome) == Restored(old(fs), zip, faults)
    {
      trace := [fs];
      if zip.None? {
        return Returned(false);
      }
      if !Works(faults, Extract) {
        Become(fs.(staging := faults.partial));
        outcome := Handle(faults, faults.throws(Extract).value);
        return;
      }
      Become(fs.(staging := zip));
      if !Works(faults, ListStaged) {
        outcome := Handle(faults, faults.throws(ListStaged).value);
        return;
      }
      if fs.staging.value == map[] {
        DeleteStaging(faults, DeleteEmptyStaging);
        return Returned(false);
      }
      var destExisted := fs.dest.Some?;
      var rollbackMoved := false;
      var failure: Option<Exception> := None;
      if destExisted {
        failure := faults.throws(MoveDestAway);
        if failure.None? {
          Become(fs.(dest := None, rollback := fs.dest));
          rollbackMoved := true;
        }
      }
      if failure.None? {
        failure := faults.throws(MoveStagingIn);
        if failure.None? {
          Become(fs.(dest := fs.staging, staging := None));
        }
      }
      if failure.Some? {
        if rollbackMoved && fs.rollback.Some? && fs.dest.None? {
          if Works(faults, MoveBack) {
            Become(fs.(dest := fs.rollback, rollback := None));
          }
        }
        outcome := Handle(faults, failure.value);
        return;
      }
      DeleteRollbackDir(faults, DeleteRollback);
      outcome := Returned(true);
    }
  }

  // ---------- all or nothing ----------

  /** Fresh directory names: nothing is at the staging and rollback places yet. */
  predicate Clean(start: FileSystem) {
    start.staging.None? && start.rollback.None?
  }

  /** The swap is tried: the zip is there, extracts, lists, and has a file. */
  predicate SwapTried(zip: Option<Tree>, faults: Faults) {
    zip.Some? && zip.value != map[] && Works(faults, Extract) && Works(faults, ListStaged)
  }

  /** The one combination the compensation cannot handle: both the second move and the undoing move throw. */
  predicate DoubleFault(start: FileSystem, zip: Option<Tree>, faults: Faults) {
    && SwapTried(zip, faults) && start.dest.Some?
    && Works(faults, MoveDestAway) && !Works(faults, MoveStagingIn) && !Works(faults, MoveBack)
  }

  /** True means the zip's files, anything else means the destination as it was. */
  predicate AllOrNothing(start: FileSystem, zip: Option<Tree>, end: FileSystem, outcome: Outcome) {
    end.dest == if outcome == Returned(true) then zip else start.dest
  }

  /**
   Restore is all or nothing exactly when the double fault does not happen; in particular under any
   single fault, or none.
   */
  lemma AllOrNothingIff(start: FileSystem, zip: Option<Tree>, faults: Faults)
    requires Clean(start)
    ensures var (trace, outcome) := Restored(start, zip, faults);
            AllOrNothing(start, zip, Now(trace), outcome) <==> !DoubleFault(start, zip, faults)
  {
  }

  /** Restore succeeds exactly when there is something to restore and extraction, listing and both moves work. */
  lemma SucceedsIff(start: FileSystem, zip: Option<Tree>, faults: Faults)
    requires Clean(start)
    ensures Restored(start, zip, faults).1 == Returned(true)
        <==> && SwapTried(zip, faults)
             && (start.dest.Some? ==> Works(faults, MoveDestAway))
             && Works(faults, MoveStagingIn)
  {
  }

  /**
   After the double fault nothing is at the destination, and cleanup deletes the old copy after an I/O or
   access error.
   */
  lemma DoubleFaultLoses(start: FileSystem, zip: Option<Tree>, faults: Faults)
    requires Clean(start) && DoubleFault(start, zip, faults)
    ensures var end := Now(Restored(start, zip, faults).0);
      && end.dest == None
      && (end.rollback == start.dest
            || (faults.throws(MoveStagingIn).value in {IoError, Unauthorized}
                && end.rollback == if Works(faults, CleanRollback) then None else Some(faults.remains(CleanRollback))))
      && (faults.throws(MoveStagingIn).value in {IoError, Unauthorized} && Works(faults, CleanRollback) ==>
            end.rollback == None)
  {
  }

  // ---------- at every intermediate step ----------

  /** A complete copy exists where it can be found: the old or the new one in place, or the old one in rollback. */
  predicate Safe(start: FileSystem, zip: Option<Tree>, fs: FileSystem) {
    fs.dest == start.dest || fs.dest == zip || fs.rollback == start.dest
  }

  ghost predicate AllSafe(start: FileSystem, zip: Option<Tree>, trace: Trace) {
    forall i :: 0 <= i < |trace| ==> Safe(start, zip, trace[i])
  }

  /** The double fault, followed by a cleanup that takes the only copy away, wholly or in part. */
  predicate CopyLost(start: FileSystem, zip: Option<Tree>, faults: Faults) {
    && DoubleFault(start, zip, faults)
    && faults.throws(MoveStagingIn).value in {IoError, Unauthorized}
    && (Works(faults, CleanRollback) || start.dest != Some(faults.remains(CleanRollback)))
  }

  lemma SwapIsSafe(start: FileSystem, zip: Option<Tree>, faults: Faults)
    requires Clean(start) && SwapTried(zip, faults) && !CopyLost(start, zip, faults)
    ensures AllSafe(start, zip, Swapped([start] + [start.(staging := zip)], faults).0)
  {
  }

  /** A complete old or new copy exists after every single operation, exactly when the only copy is not cleaned away. */
  lemma CompleteCopyIff(start: FileSystem, zip: Option<Tree>, faults: Faults)
    requires Clean(start)
    ensures AllSafe(start, zip, Restored(start, zip, faults).0) <==> !CopyLost(start, zip, faults)
  {
    var trace := Restored(start, zip, faults).0;
    if CopyLost(start, zip, faults) {
      assert !Safe(start, zip, trace[|trace| - 1]);
    } else if SwapTried(zip, faults) {
      SwapIsSafe(start, zip, faults);
    }
  }

  // ---------- single faults ----------

  ghost predicate AtMostOneFault(faults: Faults) {
    forall p, q :: !Works(faults, p) && !Works(faults, q) ==> p == q
  }

  /**
   Under at most one fault restore is all or nothing, a complete copy exists at every step, and a
   successful restore leaves nothing but what a failed deletion of the old copy leaves.
   */
  lemma SingleFaultSafe(start: FileSystem, zip: Option<Tree>, faults: Faults)
    requires Clean(start) && AtMostOneFault(faults)
    ensures var (trace, outcome) := Restored(start, zip, faults);
      && AllOrNothing(start, zip, Now(trace), outcome)
      && AllSafe(start, zip, trace)
      && (outcome == Returned(true) ==>
            && Now(trace).staging == None
            && (Works(faults, DeleteRollback) ==> Now(trace).rollback == None))
  {
    assert !(!Works(faults, MoveStagingIn) && !Works(faults, MoveBack));
    AllOrNothingIff(start, zip, faults);
    CompleteCopyIff(start, zip, faults);
    SuccessLeavesNothing(start, zip, faults);
  }

  lemma SuccessLeavesNothing(start: FileSystem, zip: Option<Tree>, faults: Faults)
    requires Clean(start)
    ensures var (trace, outcome) := Restored(start, zip, faults);
      outcome == Returned(true) ==>
        && Now(trace).staging == None
        && (Works(faults, DeleteRollback) ==> Now(trace).rollback == None)
  {
  }

  // ---------- what a failure leaves behind ----------

  /** The restore fails at this operation: it comes to it, and it throws. */
  predicate FailsAt(start: FileSystem, zip: Option<Tree>, faults: Faults, op: Operation) {
    && zip.Some? && !Works(faults, op)
    && match op
       case Extract => true
       case ListStaged => Works(faults, Extract)
       case MoveDestAway => SwapTried(zip, faults) && start.dest.Some?
       case MoveStagingIn => SwapTried(zip, faults) && (start.dest.Some? ==> Works(faults, MoveDestAway))
       case _ => false
  }

  /** The staging directory when this operation has failed. */
  function StagedAt(zip: Option<Tree>, faults: Faults, op: Operation): Option<Tree> {
    if op == Extract then faults.partial else zip
  }

  /**
   After bad data, an I/O or an access error the restore returns false and deletes the staging directory, as far as
   that can be deleted; any other exception goes through to the caller and leaves it. A rollback directory the move
   back could not empty is kept but after an I/O or access error, when it is deleted as far as it can be.
   */
  lemma FailureLeaves(start: FileSystem, zip: Option<Tree>, faults: Faults, op: Operation)
    requires Clean(start) && FailsAt(start, zip, faults, op)
    ensures var (trace, outcome) := Restored(start, zip, faults);
      var exception, end := faults.throws(op).value, Now(trace);
      && outcome == (if exception == Other then Threw(Other) else Returned(false))
      && (exception == Other ==> end.staging == StagedAt(zip, faults, op))
      && (exception != Other && Works(faults, CleanStaging) ==> end.staging == None)
      && (exception != Other && !Works(faults, CleanStaging) && StagedAt(zip, faults, op).Some? ==>
            end.staging == Some(faults.remains(CleanStaging)))
      && (!DoubleFault(start, zip, faults) ==> end.rollback == None)
      && (DoubleFault(start, zip, faults) && exception in {InvalidData, Other} ==> end.rollback == start.dest)
      && (DoubleFault(start, zip, faults) && exception in {IoError, Unauthorized} ==>
            end.rollback == if Works(faults, CleanRollback) then None else Some(faults.remains(CleanRollback)))
  {
  }

  /** With no zip, or one without files, nothing but an undeletable empty staging directory is ever left. */
  lemma NothingToRestore(start: FileSystem, zip: Option<Tree>, faults: Faults)
    requires Clean(start) && (zip == None || zip == Some(map[]))
    requires forall op :: !FailsAt(start, zip, faults, op)
    ensures var (trace, outcome) := Restored(start, zip, faults);
      && outcome == Returned(false)
      && (zip == None || Works(faults, DeleteEmptyStaging) ==> Now(trace) == start)
      && Now(trace).dest == start.dest && Now(trace).rollback == None
  {
    assert zip.Some? ==> !FailsAt(start, zip, faults, Extract) && !FailsAt(start, zip, faults, ListStaged);
  }
}
