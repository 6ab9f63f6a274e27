/**
 * backupAndRestoreAutomation(op, s3bucket): for op "backup", run backup,
 * upload and pruning inside try/except/finally, where the except clause
 * re-raises and the finally clause clears the workspace folder.
 */
module Automation {
  import opened Faults
  import opened Timestamps
  import opened Naming
  import opened Retention
  import opened Store
  import opened Workspace
  import opened Pruning
  import opened Archiving
  import opened Uploading
  import opened Cleanup

  /** The steps of a run, as they are recorded in its trace. */
  datatype Stage = BackupStage | UploadStage | PruneStage | CleanupStage

  /** How a run ends, which steps it ran in order, and the workspace and bucket it leaves. */
  datatype RunResult = RunResult(outcome: Outcome, trace: seq<Stage>, disk: DiskState, bucket: BucketState)

  const BackupOp: string := "backup"

  /** Where the try block got to: its pending outcome, the steps it ran, and the workspace and bucket it leaves. */
  datatype Attempt = Attempt(pending: Outcome, stages: seq<Stage>, disk: DiskState, bucket: BucketState)

  /**
   * The try block: backup, upload of the archive under its own name, and
   * pruning with the default keep_count, in order; the first one that
   * raises ends the block with its error, and upload's False is ignored.
   * Only the backup step touches the workspace, and a failed backup step
   * leaves the bucket alone.
   */
  function TryBlock(ds: DiskState, df: DiskFaults, bs: BucketState, bf: BucketFaults, now: DateTime): (a: Attempt)
    ensures a.disk == BackupSpec(ds, df, now).1
    ensures a.stages == [BackupStage] || a.stages == [BackupStage, UploadStage] || a.stages == [BackupStage, UploadStage, PruneStage]
    ensures a.stages == [BackupStage] <==> BackupSpec(ds, df, now).0.Raised?
    ensures a.stages == [BackupStage] ==> a.bucket == bs && a.pending == Fail(BackupSpec(ds, df, now).0.fault)
  {
    var b := BackupSpec(ds, df, now);
    match b.0
    case Raised(e) => Attempt(Fail(e), [BackupStage], b.1, bs)
    case Ok(name) =>
      var u := UploadSpec(b.1, bs, bf, name, name);
      if u.status.Raised? then Attempt(Fail(u.status.fault), [BackupStage, UploadStage], b.1, u.bucket)
      else
        var p := PruneSpec(u.bucket, bf, DefaultKeepCount);
        Attempt(p.0, [BackupStage, UploadStage, PruneStage], b.1, p.1)
  }

  /**
   * The finally clause: the workspace is cleared after whatever the try
   * block did; an error from clearing it takes the place of the pending
   * outcome, which otherwise stands.
   */
  function Finish(a: Attempt, df: DiskFaults): RunResult {
    var c := ClearSpec(a.disk, df);
    RunResult(if c.0.Fail? then c.0 else a.pending, a.stages + [CleanupStage], c.1, a.bucket)
  }

  /** One run: any op other than "backup" ("restore" only prints) does nothing. */
  function RunSpec(op: string, ds: DiskState, df: DiskFaults, bs: BucketState, bf: BucketFaults, now: DateTime): RunResult {
    if op != BackupOp then RunResult(Pass, [], ds, bs)
    else Finish(TryBlock(ds, df, bs, bf, now), df)
  }

  /** The try block against the fakes. */
  method RunStages(disk: Disk, client: Bucket, now: DateTime) returns (pending: Outcome, stages: seq<Stage>)
    requires disk.Valid() && client.Valid()
    modifies disk, client
    ensures disk.Valid() && client.Valid()
    ensures Attempt(pending, stages, disk.State(), client.State()) ==
      TryBlock(old(disk.State()), disk.faults, old(client.State()), client.faults, now)
  {
    ghost var ds, bs := disk.State(), client.State();
    stages := [BackupStage];
    var backup := Backup(disk, now);
    ghost var b := BackupSpec(ds, disk.faults, now);
    assert client.State() == bs && b == (backup, disk.State());
    if backup.Raised? {
      return Fail(backup.fault), stages;
    }
    stages := [BackupStage, UploadStage];
    var status, bar := UploadToAws(disk, client, backup.value, backup.value);
    ghost var u := UploadSpec(b.1, bs, client.faults, backup.value, backup.value);
    assert u == UploadRun(status, bar, client.State());
    if status.Raised? {
      assert TryBlock(ds, disk.faults, bs, client.faults, now) == Attempt(Fail(status.fault), stages, b.1, u.bucket);
      return Fail(status.fault), stages;
    }
    stages := [BackupStage, UploadStage, PruneStage];
    pending := ClearOlderBackup(client, DefaultKeepCount);
    assert TryBlock(ds, disk.faults, bs, client.faults, now) == Attempt(pending, stages, b.1, client.State()) by {
      assert (pending, client.State()) == PruneSpec(u.bucket, client.faults, DefaultKeepCount);
    }
  }

  /** backupAndRestoreAutomation against the fakes, with now standing for datetime.now(). */
  method BackupAndRestoreAutomation(op: string, disk: Disk, client: Bucket, now: DateTime) returns (o: Outcome, trace: seq<Stage>)
    requires disk.Valid() && client.Valid()
    modifies disk, client
    ensures disk.Valid() && client.Valid()
    ensures RunResult(o, trace, disk.State(), client.State()) ==
      RunSpec(op, old(disk.State()), disk.faults, old(client.State()), client.faults, now)
  {
    if op != BackupOp {
      return Pass, [];
    }
    var pending;
    pending, trace := RunStages(disk, client, now);
    var cleared := ClearBackupFiles(disk);
    trace := trace + [CleanupStage];
    o := if cleared.Fail? then cleared else pending;
  }

  /** Any op other than "backup" runs no step, not even the cleanup, and touches nothing. */
  lemma OtherOpDoesNothing(op: string, ds: DiskState, df: DiskFaults, bs: BucketState, bf: BucketFaults, now: DateTime)
    requires op != BackupOp
    ensures var r := RunSpec(op, ds, df, bs, bf, now);
      r.outcome == Pass && r.trace == [] && r.disk == ds && r.bucket == bs
  {
  }

  /**
   * On every path of a backup run the cleanup runs exactly once, last,
   * after backup alone, backup and upload, or all three steps; and the
   * workspace is what the cleanup makes of it after the backup step.
   */
  lemma CleanupExactlyOnce(ds: DiskState, df: DiskFaults, bs: BucketState, bf: BucketFaults, now: DateTime)
    ensures var r := RunSpec(BackupOp, ds, df, bs, bf, now);
      && (r.trace == [BackupStage, CleanupStage]
          || r.trace == [BackupStage, UploadStage, CleanupStage]
          || r.trace == [BackupStage, UploadStage, PruneStage, CleanupStage])
      && r.disk == ClearSpec(BackupSpec(ds, df, now).1, df).1
  {
    var a := TryBlock(ds, df, bs, bf, now);
    assert RunSpec(BackupOp, ds, df, bs, bf, now) == Finish(a, df);
    FinishShape(a, df);
  }

  /** The finally clause appends the cleanup to the steps the try block ran, and clears the workspace the try block left. */
  lemma FinishShape(a: Attempt, df: DiskFaults)
    requires a.stages == [BackupStage] || a.stages == [BackupStage, UploadStage] || a.stages == [BackupStage, UploadStage, PruneStage]
    ensures var r := Finish(a, df);
      && (r.trace == [BackupStage, CleanupStage]
          || r.trace == [BackupStage, UploadStage, CleanupStage]
          || r.trace == [BackupStage, UploadStage, PruneStage, CleanupStage])
      && r.disk == ClearSpec(a.disk, df).1
  {
    var r := Finish(a, df);
    if a.stages == [BackupStage] {
      assert r.trace == [BackupStage] + [CleanupStage];
    } else if a.stages == [BackupStage, UploadStage] {
      assert r.trace == [BackupStage, UploadStage] + [CleanupStage];
    } else {
      assert r.trace == [BackupStage, UploadStage, PruneStage] + [CleanupStage];
    }
  }

  /**
   * After a successful backup step the workspace exists, and the try block
   * goes on to upload the archive: a successful upload or one that raised
   * FileNotFoundError is followed by pruning, any other upload error ends
   * the block.
   */
  lemma AfterBackup(ds: DiskState, df: DiskFaults, bs: BucketState, bf: BucketFaults, now: DateTime)
    requires !df.dumpFails && !df.archiveFails
    ensures var a, name := TryBlock(ds, df, bs, bf, now), BackupFilename(now);
      var called := bs.(uploadCalls := bs.uploadCalls + [name]);
      && a.disk.present
      && (bf.uploadFault.None? ==>
           var p := PruneSpec(UploadEffect(bs, bf, name).1, bf, DefaultKeepCount);
           a == Attempt(p.0, [BackupStage, UploadStage, PruneStage], a.disk, p.1))
      && (bf.uploadFault == Some(FileNotFound) ==>
           var p := PruneSpec(called, bf, DefaultKeepCount);
           a == Attempt(p.0, [BackupStage, UploadStage, PruneStage], a.disk, p.1))
      && (bf.uploadFault.Some? && bf.uploadFault != Some(FileNotFound) ==>
           a == Attempt(Fail(bf.uploadFault.value), [BackupStage, UploadStage], a.disk, called))
  {
    BackupAfterDump(ds, df, now);
  }

  /** The traces a backup run can record. */
  lemma StageTraces()
    ensures [BackupStage] + [CleanupStage] == [BackupStage, CleanupStage]
    ensures [BackupStage, UploadStage] + [CleanupStage] == [BackupStage, UploadStage, CleanupStage]
    ensures [BackupStage, UploadStage, PruneStage] + [CleanupStage] == [BackupStage, UploadStage, PruneStage, CleanupStage]
  {
  }

  /** Once the workspace exists, the finally clause passes the try block's outcome on unless the folder cannot be removed. */
  lemma FinishPresent(a: Attempt, df: DiskFaults)
    requires a.disk.present
    ensures var r := Finish(a, df);
      && r.outcome == (if df.folderStuck then Fail(RemoveError) else a.pending)
      && r.trace == a.stages + [CleanupStage]
      && r.bucket == a.bucket
      && (!df.folderStuck ==> !r.disk.present)
  {
  }

  /** A failing backup step skips upload and pruning: the bucket is never touched. */
  lemma BackupFailureSkipsRest(ds: DiskState, df: DiskFaults, bs: BucketState, bf: BucketFaults, now: DateTime)
    requires df.dumpFails || df.archiveFails
    ensures var r := RunSpec(BackupOp, ds, df, bs, bf, now);
      r.trace == [BackupStage, CleanupStage] && r.bucket == bs
  {
    if !df.dumpFails {
      BackupAfterDump(ds, df, now);
    }
  }

  /**
   * The backup step's error is raised again once the cleanup succeeds: a
   * failing mongodump in an existing workspace, or a failing archive, in
   * which case the partial archive is cleared away with the rest.
   */
  lemma BackupErrorReraised(ds: DiskState, df: DiskFaults, bs: BucketState, bf: BucketFaults, now: DateTime)
    requires !df.folderStuck
    ensures ds.present && df.dumpFails ==> RunSpec(BackupOp, ds, df, bs, bf, now).outcome == Fail(ProcessError)
    ensures !df.dumpFails && df.archiveFails ==>
      var r := RunSpec(BackupOp, ds, df, bs, bf, now);
      r.outcome == Fail(ArchiveError) && !r.disk.present
  {
    if !df.dumpFails {
      BackupAfterDump(ds, df, now);
    }
  }

  /**
   * The cleanup's error replaces whatever the try block produced: a folder
   * that cannot be removed fails every run that got as far as creating it,
   * and a failing mongodump in a missing workspace ends in
   * FileNotFoundError from listing it, not in mongodump's error.
   */
  lemma CleanupErrorWins(ds: DiskState, df: DiskFaults, bs: BucketState, bf: BucketFaults, now: DateTime)
    ensures df.folderStuck && (ds.present || !df.dumpFails) ==>
      RunSpec(BackupOp, ds, df, bs, bf, now).outcome == Fail(RemoveError)
    ensures !ds.present && df.dumpFails ==>
      RunSpec(BackupOp, ds, df, bs, bf, now).outcome == Fail(FileNotFound)
  {
    if !df.dumpFails {
      BackupAfterDump(ds, df, now);
    }
  }

  /**
   * After a successful backup, an upload error other than
   * FileNotFoundError skips pruning and is raised again once the cleanup
   * succeeds.
   */
  lemma UploadErrorSkipsPruning(ds: DiskState, df: DiskFaults, bs: BucketState, bf: BucketFaults, now: DateTime, e: Fault)
    requires !df.dumpFails && !df.archiveFails && !df.folderStuck
    requires bf.uploadFault == Some(e) && e != FileNotFound
    ensures var r, name := RunSpec(BackupOp, ds, df, bs, bf, now), BackupFilename(now);
      && r.outcome == Fail(e)
      && r.trace == [BackupStage, UploadStage, CleanupStage]
      && r.bucket == bs.(uploadCalls := bs.uploadCalls + [name])
  {
    AfterBackup(ds, df, bs, bf, now);
    FinishPresent(TryBlock(ds, df, bs, bf, now), df);
    StageTraces();
  }

  /**
   * upload_to_aws returning False (its FileNotFoundError) does not stop the
   * run: pruning still runs, on the bucket as it was apart from the
   * recorded upload call.
   */
  lemma UploadFalseStillPrunes(ds: DiskState, df: DiskFaults, bs: BucketState, bf: BucketFaults, now: DateTime)
    requires !df.dumpFails && !df.archiveFails
    requires bf.uploadFault == Some(FileNotFound)
    ensures var r, name := RunSpec(BackupOp, ds, df, bs, bf, now), BackupFilename(now);
      var p := PruneSpec(bs.(uploadCalls := bs.uploadCalls + [name]), bf, DefaultKeepCount);
      && r.trace == [BackupStage, UploadStage, PruneStage, CleanupStage]
      && r.bucket == p.1
      && (!df.folderStuck ==> r.outcome == p.0)
  {
    AfterBackup(ds, df, bs, bf, now);
    FinishPresent(TryBlock(ds, df, bs, bf, now), df);
    StageTraces();
  }

  /**
   * A failing pruning step fails the run: a listing that raises, or, when
   * the upload did not happen, an empty bucket, whose listing has no
   * 'Contents'.
   */
  lemma PruneFailureFailsRun(ds: DiskState, df: DiskFaults, bs: BucketState, bf: BucketFaults, now: DateTime)
    requires !df.dumpFails && !df.archiveFails && !df.folderStuck
    requires bf.uploadFault.None? || bf.uploadFault == Some(FileNotFound)
    ensures bf.listingFails ==> RunSpec(BackupOp, ds, df, bs, bf, now).outcome == Fail(ClientError)
    ensures !bf.listingFails && bf.uploadFault.Some? && bs.contents == [] ==>
      RunSpec(BackupOp, ds, df, bs, bf, now).outcome == Fail(NoContents)
  {
    AfterBackup(ds, df, bs, bf, now);
    FinishPresent(TryBlock(ds, df, bs, bf, now), df);
  }

  /** The bucket right after a successful upload of this run's archive. */
  function Uploaded(bs: BucketState, bf: BucketFaults, now: DateTime): BucketState {
    UploadEffect(bs, bf, BackupFilename(now)).1
  }

  /**
   * Pruning right after a successful upload, with no refusals: it passes,
   * deletes exactly the doomed keys and leaves exactly the survivors.
   */
  lemma PruneAfterUpload(bs: BucketState, bf: BucketFaults, now: DateTime)
    requires bf.uploadFault.None? && !bf.listingFails && bf.refused == {}
    requires DistinctKeys(bs.contents)
    ensures var up := Uploaded(bs, bf, now);
      var p := PruneSpec(up, bf, DefaultKeepCount);
      && p.0 == Pass
      && p.1.uploadCalls == bs.uploadCalls + [BackupFilename(now)]
      && p.1.deleteCalls == bs.deleteCalls + Doomed(up.contents, DefaultKeepCount)
      && forall o :: o in p.1.contents <==> o in Survivors(up.contents, DefaultKeepCount)
  {
    var up := Uploaded(bs, bf, now);
    UploadKeepsKeysDistinct(bs, bf, BackupFilename(now));
    assert StoredObject(BackupFilename(now), bf.clock) in up.contents;
    PruneSuccess(up, bf, DefaultKeepCount);
  }

  /**
   * When nothing fails, the run passes having run every step, the
   * workspace folder is gone, the archive was uploaded under its name, and
   * pruning deleted exactly the doomed keys of the bucket as it stood after
   * the upload, leaving exactly its survivors.
   */
  lemma SuccessfulRun(ds: DiskState, df: DiskFaults, bs: BucketState, bf: BucketFaults, now: DateTime)
    requires !df.dumpFails && !df.archiveFails && !df.folderStuck
    requires bf.uploadFault.None? && !bf.listingFails && bf.refused == {}
    requires DistinctKeys(bs.contents)
    ensures var r, up := RunSpec(BackupOp, ds, df, bs, bf, now), Uploaded(bs, bf, now);
      && r.outcome == Pass
      && r.trace == [BackupStage, UploadStage, PruneStage, CleanupStage]
      && !r.disk.present
      && r.bucket.uploadCalls == bs.uploadCalls + [BackupFilename(now)]
      && r.bucket.deleteCalls == bs.deleteCalls + Doomed(up.contents, DefaultKeepCount)
      && forall o :: o in r.bucket.contents <==> o in Survivors(up.contents, DefaultKeepCount)
  {
    AfterBackup(ds, df, bs, bf, now);
    FinishPresent(TryBlock(ds, df, bs, bf, now), df);
    StageTraces();
    PruneAfterUpload(bs, bf, now);
  }

  /**
   * Pruning right after uploading an object newer than everything in a
   * bucket of ten or more deletes that very object.
   */
  lemma NewestPrunedAfterUpload(bs: BucketState, bf: BucketFaults, now: DateTime)
    requires bf.uploadFault.None? && !bf.listingFails && bf.refused == {}
    requires DistinctKeys(bs.contents) && |bs.contents| >= DefaultKeepCount
    requires forall o :: o in bs.contents ==> o.key != BackupFilename(now) && EarlierSecond(o.lastModified, bf.clock)
    ensures var p, name := PruneSpec(Uploaded(bs, bf, now), bf, DefaultKeepCount), BackupFilename(now);
      && name in p.1.deleteCalls
      && forall o :: o in p.1.contents ==> o.key != name
  {
    var name := BackupFilename(now);
    var latest := StoredObject(name, bf.clock);
    var up := Uploaded(bs, bf, now);
    assert up.contents == bs.contents + [latest] by {
      forall i | 0 <= i < |bs.contents| ensures bs.contents[i].key !in {name} {
        assert bs.contents[i] in bs.contents;
      }
      WithoutAbsent(bs.contents, {name});
    }
    forall o | o in up.contents && o != latest ensures Age(o) < Age(latest) {
      assert o in bs.contents;
      SortKeyOrder(o.lastModified, bf.clock);
    }
    NewestIsDoomed(up.contents, DefaultKeepCount, latest);
    PruneAfterUpload(bs, bf, now);
    UploadKeepsKeysDistinct(bs, bf, name);
    SurvivorsNotDoomed(up.contents, DefaultKeepCount);
  }

  /**
   * Because the oldest objects are the ones kept, a fresh backup uploaded
   * into a bucket that already holds ten or more older backups is deleted
   * by the same run's pruning.
   */
  lemma FreshBackupPrunedWhenFull(ds: DiskState, df: DiskFaults, bs: BucketState, bf: BucketFaults, now: DateTime)
    requires !df.dumpFails && !df.archiveFails
    requires bf.uploadFault.None? && !bf.listingFails && bf.refused == {}
    requires DistinctKeys(bs.contents) && |bs.contents| >= DefaultKeepCount
    requires forall o :: o in bs.contents ==> o.key != BackupFilename(now) && EarlierSecond(o.lastModified, bf.clock)
    ensures var r, name := RunSpec(BackupOp, ds, df, bs, bf, now), BackupFilename(now);
      && name in r.bucket.deleteCalls
      && forall o :: o in r.bucket.contents ==> o.key != name
  {
    AfterBackup(ds, df, bs, bf, now);
    FinishPresent(TryBlock(ds, df, bs, bf, now), df);
    NewestPrunedAfterUpload(bs, bf, now);
  }

  /** With fewer than ten objects before the upload, pruning right after it deletes nothing and keeps the new object. */
  lemma RoomAfterUpload(bs: BucketState, bf: BucketFaults, now: DateTime)
    requires bf.uploadFault.None? && !bf.listingFails
    requires |bs.contents| < DefaultKeepCount
    ensures var p := PruneSpec(Uploaded(bs, bf, now), bf, DefaultKeepCount);
      && p.1.deleteCalls == bs.deleteCalls
      && StoredObject(BackupFilename(now), bf.clock) in p.1.contents
  {
    var up := Uploaded(bs, bf, now);
    assert StoredObject(BackupFilename(now), bf.clock) in up.contents;
    DoomedCount(up.contents, DefaultKeepCount);
    PruneIsDeleteLoop(up, bf, DefaultKeepCount);
  }

  /** While the bucket holds fewer than ten objects, a successful run deletes nothing and keeps the fresh backup. */
  lemma FreshBackupKeptWhileRoom(ds: DiskState, df: DiskFaults, bs: BucketState, bf: BucketFaults, now: DateTime)
    requires !df.dumpFails && !df.archiveFails
    requires bf.uploadFault.None? && !bf.listingFails
    requires |bs.contents| < DefaultKeepCount
    ensures var r := RunSpec(BackupOp, ds, df, bs, bf, now);
      && r.bucket.deleteCalls == bs.deleteCalls
      && StoredObject(BackupFilename(now), bf.clock) in r.bucket.contents
  {
    AfterBackup(ds, df, bs, bf, now);
    FinishPresent(TryBlock(ds, df, bs, bf, now), df);
    RoomAfterUpload(bs, bf, now);
  }
}
