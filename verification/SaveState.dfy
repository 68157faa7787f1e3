/**
  Saving the torrent list: write a temporary file, keep the old file as a
  backup, move the new one into place. Any file operation may fail, and the
  program may be killed between any two of them.
 */
module SaveState {
  import opened Wrappers

  /** A saved torrent list, known only by its identity. */
  type State = nat

  /** A file is missing, holds a whole state, or is cut short. */
  datatype File = Missing | Torn | Holds(state: State)

  /** torrents.state, torrents.state.bak and torrents.state.tmp */
  datatype Disk = Disk(main: File, bak: File, tmp: File)

  /** What is done next. */
  datatype Next = OpenTmp | WriteTmp | RemoveBak | BackUp | Install | Restore | Done(installed: bool)

  datatype Saving = Saving(disk: Disk, next: Next)

  /** The state open_state loads: the main file if it can be read, else the backup. */
  function OpenState(d: Disk): Option<State> {
    if d.main.Holds? then Some(d.main.state)
    else if d.bak.Holds? then Some(d.bak.state)
    else None
  }

  /** The file operation at hand succeeds. */
  function Succeed(s: Saving, new_: State): Saving {
    var d := s.disk;
    match s.next
    case OpenTmp => Saving(d.(tmp := Torn), WriteTmp)
    case WriteTmp => Saving(d.(tmp := Holds(new_)), RemoveBak)
    case RemoveBak => Saving(if d.bak.Missing? then d else d.(bak := Missing), BackUp)
    case BackUp => Saving(if d.main.Missing? then d else d.(bak := d.main, main := Missing), Install)
    case Install => Saving(d.(main := d.tmp, tmp := Missing), Done(true))
    case Restore => Saving(if d.bak.Missing? then d else d.(main := d.bak, bak := Missing), Done(false))
    case Done(_) => s
  }

  /** It fails: writing and backing up give the save up, a failed install tries to bring the backup back. */
  function Fail(s: Saving): Saving {
    match s.next
    case OpenTmp => s.(next := Done(false))
    case WriteTmp => s.(next := Done(false))
    case RemoveBak => if s.disk.bak.Missing? then s.(next := BackUp) else s.(next := Done(false))
    case BackUp => if s.disk.main.Missing? then s.(next := Install) else s.(next := Done(false))
    case Install => s.(next := Restore)
    case Restore => s.(next := Done(false))
    case Done(_) => s
  }

  function Begin(d: Disk): Saving { Saving(d, OpenTmp) }

  /** The states of a save; a crash leaves the disk of any one of them behind. */
  ghost predicate IsRun(d: Disk, new_: State, run: seq<Saving>) {
    && run != [] && run[0] == Begin(d)
    && forall i :: 0 < i < |run| ==> run[i] == Succeed(run[i - 1], new_) || run[i] == Fail(run[i - 1])
  }

  /** How far the save has come, in terms of the disk it started from. */
  ghost predicate Inv(d: Disk, new_: State, s: Saving) {
    match s.next
    case OpenTmp => s.disk == d
    case WriteTmp => s.disk.main == d.main && s.disk.bak == d.bak
    case RemoveBak => s.disk == d.(tmp := Holds(new_))
    case BackUp => s.disk == Disk(d.main, Missing, Holds(new_))
    case Install => s.disk == Disk(Missing, d.main, Holds(new_))
    case Restore => s.disk == Disk(Missing, d.main, Holds(new_))
    case Done(true) => s.disk == Disk(Holds(new_), d.main, Missing)
    case Done(false) =>
      || (s.disk.main == d.main && s.disk.bak == d.bak)
      || s.disk == Disk(d.main, Missing, Holds(new_))
      || s.disk == Disk(Missing, d.main, Holds(new_))
  }

  lemma {:induction false} RunKeepsInv(d: Disk, new_: State, run: seq<Saving>, i: nat)
    requires IsRun(d, new_, run) && i < |run|
    ensures Inv(d, new_, run[i])
    decreases i
  {
    if i > 0 {
      RunKeepsInv(d, new_, run, i - 1);
      var s := run[i - 1];
      assert Inv(d, new_, Succeed(s, new_)) && Inv(d, new_, Fail(s));
    }
  }

  /** Every crash and every failure leaves the state from before the save, or the new one. */
  ghost predicate Safe(d: Disk, new_: State) {
    forall run: seq<Saving>, i: nat :: IsRun(d, new_, run) && 0 <= i < |run| ==>
      OpenState(run[i].disk) == OpenState(d) || OpenState(run[i].disk) == Some(new_)
  }

  /** A save is safe exactly unless the only readable copy is the backup, which it removes first. */
  lemma SafeIff(d: Disk, new_: State)
    ensures Safe(d, new_) <==> (d.main.Holds? || !d.bak.Holds?)
  {
    if d.main.Holds? || !d.bak.Holds? {
      forall run: seq<Saving>, i: nat | IsRun(d, new_, run) && 0 <= i < |run|
        ensures OpenState(run[i].disk) == OpenState(d) || OpenState(run[i].disk) == Some(new_)
      {
        RunKeepsInv(d, new_, run, i);
      }
    } else {
      var run := BackupRemoved(d, new_);
      assert OpenState(run[3].disk) == None;
    }
  }

  /** The run up to the removal of the backup. */
  lemma BackupRemoved(d: Disk, new_: State) returns (run: seq<Saving>)
    requires d.bak.Holds?
    ensures IsRun(d, new_, run) && |run| == 4 && run[3].disk == Disk(d.main, Missing, Holds(new_))
  {
    var s0 := Begin(d);
    var s1 := Succeed(s0, new_);
    var s2 := Succeed(s1, new_);
    run := [s0, s1, s2, Succeed(s2, new_)];
  }

  /** With a readable main file: the old or the new state after any crash, and the new one once the save is through. */
  lemma SaveIsSafe(d: Disk, new_: State, run: seq<Saving>, i: nat)
    requires d.main.Holds? && IsRun(d, new_, run) && i < |run|
    ensures OpenState(run[i].disk) in {Some(d.main.state), Some(new_)}
    ensures run[i].next == Done(true) ==> run[i].disk.main == Holds(new_)
    ensures run[i].next == Done(false) ==> OpenState(run[i].disk) == Some(d.main.state)
  {
    RunKeepsInv(d, new_, run, i);
  }

  /** A crash while the main file is moved away makes the next save unsafe: it deletes the last copy. */
  lemma SecondCrashCanLose(old_: State, new_: State) returns (first: seq<Saving>, second: seq<Saving>)
    ensures IsRun(Disk(Holds(old_), Missing, Missing), new_, first)
    ensures IsRun(first[|first| - 1].disk, new_, second)
    ensures OpenState(first[|first| - 1].disk) == Some(old_) && OpenState(second[|second| - 1].disk) == None
  {
    var d := Disk(Holds(old_), Missing, Missing);
    var s0 := Begin(d);
    var s1 := Succeed(s0, new_);
    var s2 := Succeed(s1, new_);
    var s3 := Succeed(s2, new_);
    first := [s0, s1, s2, s3, Succeed(s3, new_)];
    second := BackupRemoved(first[4].disk, new_);
  }

  // ---------------------------------------------------------------- the torrent manager

  class TorrentManager {
    var disk: Disk
    var prevSavedState: Option<State>

    constructor (disk: Disk)
      ensures this.disk == disk && prevSavedState == None
    {
      this.disk := disk;
      prevSavedState := None;
    }

    /** _save_state; `fails` says which file operations raise. Returns the states it went through. */
    method Save(state: State, fails: Next -> bool) returns (ghost run: seq<Saving>)
      modifies this
      ensures old(prevSavedState) == Some(state) ==> disk == old(disk) && prevSavedState == old(prevSavedState)
      ensures old(prevSavedState) != Some(state) ==>
        && IsRun(old(disk), state, run) && run[|run| - 1].disk == disk && run[|run| - 1].next.Done?
        && prevSavedState == if run[|run| - 1].next.installed then Some(state) else old(prevSavedState)
      // what is on the disk in the end, by the first operation that failed
      ensures old(prevSavedState) != Some(state) ==>
        var d := old(disk);
        disk ==
          if fails(OpenTmp) then d
          else if fails(WriteTmp) then d.(tmp := Torn)
          else if d.bak != Missing && fails(RemoveBak) then d.(tmp := Holds(state))
          else if d.main != Missing && fails(BackUp) then Disk(d.main, Missing, Holds(state))
          else if !fails(Install) then Disk(Holds(state), d.main, Missing)
          else if d.main != Missing && !fails(Restore) then Disk(d.main, Missing, Holds(state))
          else Disk(Missing, d.main, Holds(state))
      // nothing fails: the new state is in the main file; only the install fails: the old one is back in it
      ensures old(prevSavedState) != Some(state) && !(exists n :: fails(n)) ==> disk.main == Holds(state)
      ensures old(prevSavedState) != Some(state) && (forall n :: fails(n) <==> n == Install) ==>
        disk.main == old(disk.main) && prevSavedState == old(prevSavedState)
    {
      ghost var d := disk;
      run := Start(d, state);
      hide IsRun;
      if prevSavedState == Some(state) {
        return;
      }
      if fails(OpenTmp) {
        run := Extend(d, state, run, false);
        return;
      }
      disk := disk.(tmp := Torn);
      run := Extend(d, state, run, true);
      if fails(WriteTmp) {
        run := Extend(d, state, run, false);
        return;
      }
      disk := disk.(tmp := Holds(state));
      run := Extend(d, state, run, true);
      if !disk.bak.Missing? {
        if fails(RemoveBak) {
          run := Extend(d, state, run, false);
          return;
        }
        disk := disk.(bak := Missing);
      }
      run := Extend(d, state, run, true);
      if !disk.main.Missing? {
        if fails(BackUp) {
          run := Extend(d, state, run, false);
          return;
        }
        disk := disk.(bak := disk.main, main := Missing);
      }
      run := Extend(d, state, run, true);
      if !fails(Install) {
        disk := disk.(main := disk.tmp, tmp := Missing);
        prevSavedState := Some(state);
        run := Extend(d, state, run, true);
      } else {
        run := Extend(d, state, run, false);
        if !disk.bak.Missing? && !fails(Restore) {
          disk := disk.(main := disk.bak, bak := Missing);
          run := Extend(d, state, run, true);
        } else {
          run := Extend(d, state, run, false);
        }
      }
    }
  }

  lemma Start(d: Disk, new_: State) returns (run: seq<Saving>)
    ensures IsRun(d, new_, run) && run != [] && run[|run| - 1] == Begin(d)
  {
    run := [Begin(d)];
  }

  /** The run goes on with the success or the failure of the operation at hand. */
  lemma Extend(d: Disk, new_: State, run: seq<Saving>, success: bool) returns (longer: seq<Saving>)
    requires run != [] && IsRun(d, new_, run)
    ensures longer != [] && IsRun(d, new_, longer)
    ensures longer[|longer| - 1] == if success then Succeed(run[|run| - 1], new_) else Fail(run[|run| - 1])
  {
    var s := run[|run| - 1];
    longer := run + [if success then Succeed(s, new_) else Fail(s)];
  }
}
