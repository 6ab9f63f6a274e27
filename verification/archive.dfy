/**
 * The backup step: mongodump into the workspace, then make_tarfile packs
 * the dump directory into an archive named after the current minute.
 */
module Archiving {
  import opened Faults
  import opened Timestamps
  import opened Naming
  import opened Workspace

  /**
   * make_tarfile(output_filename, source_dir) for a source directory inside
   * the workspace folder: the archive is written to
   * databackup-temp/<output_filename> and holds the source under its
   * basename.
   */
  method MakeTarfile(disk: Disk, outputFilename: string, sourceDir: string) returns (o: Outcome)
    requires disk.Valid()
    requires ValidName(outputFilename)
    requires sourceDir == Join(WorkspaceDir, Basename(sourceDir))
    modifies disk
    ensures disk.Valid()
    ensures (o, disk.State()) == TarEffect(old(disk.State()), disk.faults,
      Basename(ArchivePath(outputFilename)), Basename(sourceDir), ArchiveMember(sourceDir))
  {
    BasenameOfJoin(WorkspaceDir, outputFilename);
    o := disk.WriteTar(Basename(ArchivePath(outputFilename)), Basename(sourceDir), ArchiveMember(sourceDir));
  }

  /**
   * backup() on a disk state: a failing mongodump raises its error and
   * leaves the disk as it was; otherwise the archive of the dump is made,
   * and its name is returned unless writing it raised.
   */
  function BackupSpec(st: DiskState, f: DiskFaults, now: DateTime): (r: (Result<string>, DiskState))
    ensures r.1.ops == st.ops
    ensures f.dumpFails ==> r == (Raised(ProcessError), st)
  {
    var dump := DumpEffect(st, f);
    if dump.0.Fail? then (Raised(dump.0.fault), dump.1)
    else
      var name := BackupFilename(now);
      var tar := TarEffect(dump.1, f, name, Basename(DumpDir), ArchiveMember(DumpDir));
      if tar.0.Fail? then (Raised(tar.0.fault), tar.1) else (Ok(name), tar.1)
  }

  /** backup() against the fake workspace, with now standing for datetime.now(). */
  method Backup(disk: Disk, now: DateTime) returns (r: Result<string>)
    requires disk.Valid()
    modifies disk
    ensures disk.Valid()
    ensures (r, disk.State()) == BackupSpec(old(disk.State()), disk.faults, now)
  {
    var o := disk.MongoDump();
    if o.Fail? {
      return Raised(o.fault);
    }
    var name := BackupFilename(now);
    BackupFilenameShape(now);
    DumpMember();
    BasenameOfJoin(WorkspaceDir, name);
    o := MakeTarfile(disk, name, DumpDir);
    if o.Fail? {
      r := Raised(o.fault);
    } else {
      r := Ok(name);
    }
  }

  /** The archive's name is never the dump directory's name. */
  lemma ArchiveIsNotDump(now: DateTime)
    ensures BackupFilename(now) != DumpName
  {
    BackupFilenameShape(now);
  }

  /**
   * After a successful dump, backup() returns the minute-stamped name
   * exactly when the archive is written; either way the workspace exists,
   * still holds the dump directory, and holds a file under that name: the
   * complete archive, whose one top-level entry is "databackup", or an
   * empty partial one when writing failed.
   */
  lemma BackupAfterDump(st: DiskState, f: DiskFaults, now: DateTime)
    requires !f.dumpFails
    ensures var r, name := BackupSpec(st, f, now), BackupFilename(now);
      && (r.0 == Ok(name) <==> !f.archiveFails)
      && (r.0 != Ok(name) ==> r.0 == Raised(ArchiveError))
      && r.1.present
      && Lookup(r.1.entries, DumpName) == Some(Entry(DumpName, Directory, 0, []))
      && Lookup(r.1.entries, name) ==
         (if f.archiveFails then Some(Entry(name, RegularFile, 0, []))
          else Some(Entry(name, RegularFile, f.archiveSize, [DumpName])))
  {
    var name := BackupFilename(now);
    var dump := DumpEffect(st, f);
    DumpMember();
    ArchiveIsNotDump(now);
    var tar := TarEffect(dump.1, f, name, DumpName, DumpName);
    assert Basename(DumpDir) == DumpName;
    var e := if f.archiveFails then Entry(name, RegularFile, 0, []) else Entry(name, RegularFile, f.archiveSize, [DumpName]);
    assert tar.1.entries == Put(dump.1.entries, e);
    LookupWithout(dump.1.entries, name, DumpName);
    assert Lookup(tar.1.entries, DumpName) == Lookup(dump.1.entries, DumpName) by {
      LookupAppendOther(WithoutName(dump.1.entries, name), e, DumpName);
    }
  }

  /** Appending an entry with another name does not change a lookup. */
  lemma {:induction false} LookupAppendOther(es: seq<Entry>, e: Entry, name: string)
    requires e.name != name
    ensures Lookup(es + [e], name) == Lookup(es, name)
  {
    if es != [] {
      assert (es + [e])[1..] == es[1..] + [e];
      LookupAppendOther(es[1..], e, name);
    }
  }
}
