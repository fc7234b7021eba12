/** The crash-safe mutate-and-restore protocol of scripts/mutation_check.py. */
module Sidecar {
  import opened Common

  type Bytes = string

  /** The file under mutation and its sidecar backup. */
  datatype Disk = Disk(target: Bytes, backup: Option<Bytes>)

  /** A file operation; the backup write takes effect whole or not at all. */
  datatype Op = WriteTarget(data: Bytes) | WriteBackup(data: Bytes) | UnlinkBackup

  function Do(d: Disk, op: Op): Disk {
    match op
    case WriteTarget(b) => d.(target := b)
    case WriteBackup(b) => d.(backup := Some(b))
    case UnlinkBackup => d.(backup := None)
  }

  function DoAll(d: Disk, ops: seq<Op>): Disk {
    if ops == [] then d else Do(DoAll(d, ops[..|ops| - 1]), ops[|ops| - 1])
  }

  // ----- The operations a run performs -----

  /** `recover`. */
  function RecoverOps(d: Disk): seq<Op> {
    if d.backup.Some? then [WriteTarget(d.backup.value), UnlinkBackup] else []
  }

  /** What the run takes for the original: the file as `recover` leaves it. */
  function Original(d: Disk): Bytes {
    if d.backup.Some? then d.backup.value else d.target
  }

  function MutantOps(mutants: seq<Bytes>): (ops: seq<Op>)
    ensures |ops| == |mutants| && forall i :: 0 <= i < |ops| ==> ops[i] == WriteTarget(mutants[i])
  {
    seq(|mutants|, i requires 0 <= i < |mutants| => WriteTarget(mutants[i]))
  }

  /** `__enter__`, the mutants that were tried, and `__exit__`. */
  function SessionOps(original: Bytes, mutants: seq<Bytes>): seq<Op> {
    [WriteBackup(original)] + MutantOps(mutants) + [WriteTarget(original), UnlinkBackup]
  }

  /** `run_mutations`. */
  function RunOps(d: Disk, mutants: seq<Bytes>): seq<Op> {
    RecoverOps(d) + SessionOps(Original(d), mutants)
  }

  // ----- The program -----

  class Files {
    var target: Bytes
    var backup: Option<Bytes>
    ghost var log: seq<Op>

    ghost function View(): Disk
      reads this
    {
      Disk(target, backup)
    }

    constructor (target: Bytes, backup: Option<Bytes>)
      ensures View() == Disk(target, backup) && log == []
    {
      this.target, this.backup, log := target, backup, [];
    }

    method PutTarget(data: Bytes)
      modifies this
      ensures View() == Do(old(View()), WriteTarget(data)) && log == old(log) + [WriteTarget(data)]
    {
      target := data;
      log := log + [WriteTarget(data)];
    }

    method PutBackup(data: Bytes)
      modifies this
      ensures View() == Do(old(View()), WriteBackup(data)) && log == old(log) + [WriteBackup(data)]
    {
      backup := Some(data);
      log := log + [WriteBackup(data)];
    }

    method Unlink()
      modifies this
      ensures View() == Do(old(View()), UnlinkBackup) && log == old(log) + [UnlinkBackup]
    {
      backup := None;
      log := log + [UnlinkBackup];
    }

    method Recover() returns (recovered: bool)
      modifies this
      ensures log == old(log) + RecoverOps(old(View()))
      ensures View() == DoAll(old(View()), RecoverOps(old(View())))
      ensures recovered <==> old(backup).Some?
    {
      if backup.None? {
        return false;
      }
      ghost var d := View();
      PutTarget(backup.value);
      Unlink();
      TwoOps(d, WriteTarget(d.backup.value), UnlinkBackup);
      recovered := true;
    }
  }

  lemma TwoOps(d: Disk, a: Op, b: Op)
    ensures DoAll(d, [a, b]) == Do(Do(d, a), b)
  {
    OneMore(d, [], a);
    OneMore(d, [a], b);
    assert [] + [a] == [a] && [a] + [b] == [a, b];
  }

  lemma OneMore(d: Disk, ops: seq<Op>, op: Op)
    ensures DoAll(d, ops + [op]) == Do(DoAll(d, ops), op)
  {
    assert (ops + [op])[..|ops|] == ops;
  }

  lemma {:induction false} DoAllConcat(d: Disk, a: seq<Op>, b: seq<Op>)
    ensures DoAll(d, a + b) == DoAll(DoAll(d, a), b)
  {
    if b == [] {
      assert a + b == a;
    } else {
      DoAllConcat(d, a, b[..|b| - 1]);
      assert (a + b)[..|a + b| - 1] == a + b[..|b| - 1];
    }
  }

  /** The `with _Restore(target)` block. */
  method Session(files: Files, mutants: seq<Bytes>)
    modifies files
    ensures files.log == old(files.log) + SessionOps(old(files.target), mutants)
    ensures files.View() == DoAll(old(files.View()), SessionOps(old(files.target), mutants))
  {
    hide DoAll, Do;
    ghost var start, d := files.log, files.View();
    var original := files.target;
    ghost var done := [WriteBackup(original)];
    files.PutBackup(original);
    OneOp(d, WriteBackup(original));
    for i := 0 to |mutants|
      invariant done == [WriteBackup(original)] + MutantOps(mutants[..i])
      invariant files.log == start + done && files.View() == DoAll(d, done)
    {
      files.PutTarget(mutants[i]);
      OneMore(d, done, WriteTarget(mutants[i]));
      assert MutantOps(mutants[..i + 1]) == MutantOps(mutants[..i]) + [WriteTarget(mutants[i])];
      done := done + [WriteTarget(mutants[i])];
    }
    assert mutants[..|mutants|] == mutants;
    files.PutTarget(original);
    OneMore(d, done, WriteTarget(original));
    done := done + [WriteTarget(original)];
    files.Unlink();
    OneMore(d, done, UnlinkBackup);
    assert SessionOps(original, mutants) == done + [UnlinkBackup];
  }

  lemma OneOp(d: Disk, op: Op)
    ensures DoAll(d, [op]) == Do(d, op)
  {
    OneMore(d, [], op);
    assert [] + [op] == [op];
  }

  /** `run_mutations`: the file operations are those of `RunOps`, in that order and no others. */
  method RunMutations(files: Files, mutants: seq<Bytes>)
    modifies files
    ensures files.log == old(files.log) + RunOps(old(files.View()), mutants)
    ensures files.View() == DoAll(old(files.View()), RunOps(old(files.View()), mutants))
  {
    ghost var d := files.View();
    var _ := files.Recover();
    RecoverLeavesOriginal(d);
    Session(files, mutants);
    DoAllConcat(d, RecoverOps(d), SessionOps(Original(d), mutants));
  }

  lemma RecoverLeavesOriginal(d: Disk)
    ensures DoAll(d, RecoverOps(d)) == Disk(Original(d), None)
  {
    if d.backup.Some? { TwoOps(d, WriteTarget(d.backup.value), UnlinkBackup); }
  }

  // ----- Crashes -----

  /** One run: refused by the clean-tree guard, finished, or killed after `ops` operations; when the next
      operation was a write to the target, it may have left anything there. */
  datatype Attempt
    = Refused | Finished(mutants: seq<Bytes>) | Killed(mutants: seq<Bytes>, ops: nat, torn: Option<Bytes>)

  function After(d: Disk, a: Attempt): Disk {
    match a
    case Refused => d
    case Finished(mutants) => DoAll(d, RunOps(d, mutants))
    case Killed(mutants, n, torn) =>
      var all := RunOps(d, mutants);
      if n >= |all| then DoAll(d, all)
      else
        var stopped := DoAll(d, all[..n]);
        if torn.Some? && all[n].WriteTarget? then stopped.(target := torn.value) else stopped
  }

  function AfterAll(d: Disk, attempts: seq<Attempt>): Disk {
    if attempts == [] then d else After(AfterAll(d, attempts[..|attempts| - 1]), attempts[|attempts| - 1])
  }

  /** The original is not lost: it is in the sidecar, or there is no sidecar and it is in place. */
  predicate Safe(original: Bytes, d: Disk) {
    d.backup == Some(original) || (d.backup.None? && d.target == original)
  }

  /** An operation this protocol performs in a state that still holds the original. */
  predicate Careful(original: Bytes, d: Disk, op: Op) {
    match op
    case WriteTarget(_) => d.backup == Some(original)
    case WriteBackup(b) => b == original
    case UnlinkBackup => d.target == original
  }

  /** The state before each operation of a session. */
  lemma {:induction false} SessionState(original: Bytes, mutants: seq<Bytes>, n: nat)
    requires n <= |mutants| + 3
    ensures var d := DoAll(Disk(original, None), SessionOps(original, mutants)[..n]);
            if n == 0 then d == Disk(original, None)
            else if n <= |mutants| + 1 then d.backup == Some(original)
            else if n == |mutants| + 2 then d == Disk(original, Some(original))
            else d == Disk(original, None)
  {
    var ops := SessionOps(original, mutants);
    if n > 0 {
      SessionState(original, mutants, n - 1);
      assert ops[..n] == ops[..n - 1] + [ops[n - 1]];
      OneMore(Disk(original, None), ops[..n - 1], ops[n - 1]);
    }
  }

  lemma RecoverIsCareful(original: Bytes, d: Disk, n: nat)
    requires Safe(original, d) && n < |RecoverOps(d)|
    ensures var s := DoAll(d, RecoverOps(d)[..n]);
            Safe(original, s) && Careful(original, s, RecoverOps(d)[n])
  {
    var ops := RecoverOps(d);
    if n == 0 {
      assert ops[..n] == [];
    } else {
      assert ops[..n] == [WriteTarget(original)];
      OneOp(d, WriteTarget(original));
    }
  }

  lemma SessionIsCareful(original: Bytes, mutants: seq<Bytes>, n: nat)
    requires n <= |mutants| + 3
    ensures var s := DoAll(Disk(original, None), SessionOps(original, mutants)[..n]);
            Safe(original, s) && (n < |mutants| + 3 ==> Careful(original, s, SessionOps(original, mutants)[n]))
  {
    hide DoAll;
    SessionState(original, mutants, n);
  }

  /** Every operation of a run meets a state in which it is careful. */
  lemma RunIsCareful(original: Bytes, d: Disk, mutants: seq<Bytes>, n: nat)
    requires Safe(original, d) && n <= |RunOps(d, mutants)|
    ensures var s := DoAll(d, RunOps(d, mutants)[..n]);
            Safe(original, s) && (n < |RunOps(d, mutants)| ==> Careful(original, s, RunOps(d, mutants)[n]))
  {
    hide DoAll, Careful;
    var head, tail := RecoverOps(d), SessionOps(original, mutants);
    var all := RunOps(d, mutants);
    assert all == head + tail;
    if n < |head| {
      assert all[..n] == head[..n];
      RecoverIsCareful(original, d, n);
    } else {
      var k := n - |head|;
      assert all[..n] == head + tail[..k];
      DoAllConcat(d, head, tail[..k]);
      RecoverLeavesOriginal(d);
      SessionIsCareful(original, mutants, k);
    }
  }

  /** No attempt loses the original. */
  lemma AttemptIsSafe(original: Bytes, d: Disk, a: Attempt)
    requires Safe(original, d)
    ensures Safe(original, After(d, a))
  {
    match a
    case Refused =>
    case Finished(mutants) =>
      var all := RunOps(d, mutants);
      assert all[..|all|] == all;
      RunIsCareful(original, d, mutants, |all|);
    case Killed(mutants, n, torn) =>
      var all := RunOps(d, mutants);
      assert all[..|all|] == all;
      RunIsCareful(original, d, mutants, if n < |all| then n else |all|);
  }

  /** Over any number of runs, killed anywhere, the original is in place or in the sidecar. */
  lemma {:induction false} OriginalIsNeverLost(original: Bytes, attempts: seq<Attempt>)
    ensures Safe(original, AfterAll(Disk(original, None), attempts))
  {
    if attempts != [] {
      var n := |attempts| - 1;
      OriginalIsNeverLost(original, attempts[..n]);
      AttemptIsSafe(original, AfterAll(Disk(original, None), attempts[..n]), attempts[n]);
    }
  }

  /** Recovery after any history restores the original and removes the sidecar; recovering again does nothing. */
  lemma RecoveryRestores(original: Bytes, attempts: seq<Attempt>)
    ensures var d := AfterAll(Disk(original, None), attempts);
            DoAll(d, RecoverOps(d)) == Disk(original, None)
    ensures RecoverOps(Disk(original, None)) == []
  {
    OriginalIsNeverLost(original, attempts);
    RecoverLeavesOriginal(AfterAll(Disk(original, None), attempts));
  }

  /** A run that finishes leaves the original in place and no sidecar, whatever happened before. */
  lemma FinishedRunRestores(original: Bytes, attempts: seq<Attempt>, mutants: seq<Bytes>)
    ensures After(AfterAll(Disk(original, None), attempts), Finished(mutants)) == Disk(original, None)
  {
    var d := AfterAll(Disk(original, None), attempts);
    OriginalIsNeverLost(original, attempts);
    RecoverLeavesOriginal(d);
    DoAllConcat(d, RecoverOps(d), SessionOps(original, mutants));
    SessionState(original, mutants, |mutants| + 3);
    var ops := SessionOps(original, mutants);
    assert ops[..|mutants| + 3] == ops;
  }

  // ----- The clean-tree guard -----

  /** `_git_clean`: the file is as committed; where git has nothing to say (`None`) every file counts as clean. */
  predicate Clean(committed: Option<Bytes>, target: Bytes) {
    committed.None? || target == committed.value
  }

  /** `main`: nothing is done, not even recovery, unless the file is clean. */
  function Guarded(committed: Option<Bytes>, d: Disk, mutants: seq<Bytes>): Disk {
    After(d, if Clean(committed, d.target) then Finished(mutants) else Refused)
  }

  function GuardedAll(committed: Option<Bytes>, d: Disk, runs: seq<seq<Bytes>>): Disk {
    if runs == [] then d else Guarded(committed, GuardedAll(committed, d, runs[..|runs| - 1]), runs[|runs| - 1])
  }

  /** Under git, any number of later runs repair the file exactly when nothing was wrong with it: a mutant that a
      crash left behind stays, although its backup is at hand. Without git the next run repairs it. */
  lemma {:induction false} LaterRunsRepairIff(original: Bytes, attempts: seq<Attempt>, committed: Option<Bytes>,
                                              runs: seq<seq<Bytes>>)
    requires runs != [] && (committed.Some? ==> committed.value == original)
    ensures var d := AfterAll(Disk(original, None), attempts);
            && (GuardedAll(committed, d, runs) == Disk(original, None) <==> committed.None? || d.target == original)
            && (committed.Some? && d.target != original ==> GuardedAll(committed, d, runs) == d)
  {
    hide AfterAll, After;
    var n := |runs| - 1;
    var d := AfterAll(Disk(original, None), attempts);
    if n > 0 {
      LaterRunsRepairIff(original, attempts, committed, runs[..n]);
      FinishedRunRestores(original, [], runs[n]);
      NoAttempts(Disk(original, None));
    } else {
      assert runs[..0] == [];
      FinishedRunRestores(original, attempts, runs[0]);
    }
    RefusedRunDoesNothing(d);
  }

  lemma NoAttempts(d: Disk)
    ensures AfterAll(d, []) == d
  {
  }

  lemma RefusedRunDoesNothing(d: Disk)
    ensures After(d, Refused) == d
  {
  }

  // ----- The backup write -----

  /** A run killed while it wrote the backup, had that write not been atomic: a piece of it is there. */
  function KilledInBackup(d: Disk, piece: Bytes): Disk {
    DoAll(d, RecoverOps(d)).(backup := Some(piece))
  }

  /** Were the backup written in pieces, a crash would make the piece the original. */
  lemma TornBackupIsFatal(original: Bytes, piece: Bytes)
    ensures var d := Disk(original, Some(piece));
            DoAll(d, RecoverOps(d)) == Disk(piece, None)
  {
    RecoverLeavesOriginal(Disk(original, Some(piece)));
  }

  /** The protocol needs the atomic backup write: after any history, a run killed inside that write and then a run
      that finishes leave the original exactly when the whole of it had been written. */
  lemma BackupMustBeAtomic(original: Bytes, attempts: seq<Attempt>, piece: Bytes, mutants: seq<Bytes>)
    ensures var d := KilledInBackup(AfterAll(Disk(original, None), attempts), piece);
            After(d, Finished(mutants)) == Disk(piece, None)
            && (After(d, Finished(mutants)) == Disk(original, None) <==> piece == original)
  {
    var d := KilledInBackup(AfterAll(Disk(original, None), attempts), piece);
    RecoveryRestores(original, attempts);
    TornBackupIsFatal(original, piece);
    DoAllConcat(d, RecoverOps(d), SessionOps(piece, mutants));
    SessionState(piece, mutants, |mutants| + 3);
    var ops := SessionOps(piece, mutants);
    assert ops[..|mutants| + 3] == ops;
  }
}
