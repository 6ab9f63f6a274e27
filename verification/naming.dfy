/**
 * The names the backup step gives things: the archive's file name (also its
 * key in the bucket), the path it is written to, and the name of the one
 * entry inside it.
 */
module Naming {
  import opened Digits
  import opened Faults
  import opened Timestamps

  /** The temporary workspace folder, relative to the working directory. */
  const WorkspaceDir: string := "databackup-temp"

  /** Where mongodump writes its output (--out=...). */
  const DumpDir: string := "databackup-temp/databackup"

  const NamePrefix: string := "databackup--"
  const NameSuffix: string := ".tar.gz"

  /** f'databackup--{now.strftime("%d-%m-%Y--%H-%M")}.tar.gz' */
  function BackupFilename(t: DateTime): string {
    NamePrefix + Pad2(t.day) + "-" + Pad2(t.month) + "-" + Decimal(t.year)
      + "--" + Pad2(t.hour) + "-" + Pad2(t.minute) + NameSuffix
  }

  /** The part of a reading that a backup name keeps: everything down to the minute. */
  datatype MinuteStamp = MinuteStamp(year: int, month: int, day: int, hour: int, minute: int)

  function MinuteOf(t: DateTime): MinuteStamp {
    MinuteStamp(t.year, t.month, t.day, t.hour, t.minute)
  }

  /**
   * Reads the timestamp back out of a backup name, positionally: the fixed
   * prefix, day, month, then the year up to the fixed-width tail
   * "--HH-MM.tar.gz". Anything not of that shape gives None.
   */
  function ParseBackupFilename(s: string): Option<MinuteStamp> {
    if |s| < 33 || s[..12] != NamePrefix || s[|s| - 7..] != NameSuffix
       || s[14] != '-' || s[17] != '-' || s[|s| - 14..|s| - 12] != "--" || s[|s| - 10] != '-'
    then None
    else
      var day, month, year := s[12..14], s[15..17], s[18..|s| - 14];
      var hour, minute := s[|s| - 12..|s| - 10], s[|s| - 9..|s| - 7];
      if AllDigits(day) && AllDigits(month) && AllDigits(year) && AllDigits(hour) && AllDigits(minute)
      then Some(MinuteStamp(Value(year), Value(month), Value(day), Value(hour), Value(minute)))
      else None
  }

  /** The part of a backup name before the year: "databackup--DD-MM-". */
  function NameHead(t: DateTime): (h: string)
    ensures |h| == 18
  {
    NamePrefix + Pad2(t.day) + "-" + Pad2(t.month) + "-"
  }

  /** The part of a backup name after the year: "--HH-MM.tar.gz". */
  function NameTail(t: DateTime): (h: string)
    ensures |h| == 14
  {
    "--" + Pad2(t.hour) + "-" + Pad2(t.minute) + NameSuffix
  }

  lemma NameParts(t: DateTime)
    ensures BackupFilename(t) == NameHead(t) + Decimal(t.year) + NameTail(t)
  {
  }

  /** The three parts of a concatenation can be sliced back out of it. */
  lemma Segments(a: string, b: string, c: string)
    ensures (a + b + c)[..|a|] == a
    ensures (a + b + c)[|a|..|a| + |b|] == b
    ensures (a + b + c)[|a| + |b|..] == c
  {
  }

  /**
   * The name has the fixed prefix and suffix, carries no path separator,
   * and is 32 characters plus the year's digits: 36 for a four-digit year.
   */
  lemma BackupFilenameShape(t: DateTime)
    ensures var name := BackupFilename(t);
      && |name| == 32 + |Decimal(t.year)|
      && (1000 <= t.year ==> |name| == 36)
      && name[..12] == NamePrefix
      && name[|name| - 7..] == NameSuffix
      && ValidName(name)
  {
    var name, head, y, tail := BackupFilename(t), NameHead(t), Decimal(t.year), NameTail(t);
    if 1000 <= t.year { FourDigits(t.year); }
    NameParts(t);
    Segments(head, y, tail);
    assert name[..12] == head[..12];
    assert name[|name| - 7..] == tail[7..];
    forall i | 0 <= i < |name| ensures name[i] != '/' {
      if i < 18 {
        assert name[i] == head[i];
      } else if i < 18 + |y| {
        assert name[i] == y[i - 18];
      } else {
        assert name[i] == tail[i - 18 - |y|];
      }
    }
  }

  /** The name carries the timestamp to the minute: reading it back gives those fields. */
  lemma ParseBackupFilenameRoundTrip(t: DateTime)
    ensures ParseBackupFilename(BackupFilename(t)) == Some(MinuteOf(t))
  {
    var s, head, y, tail := BackupFilename(t), NameHead(t), Decimal(t.year), NameTail(t);
    BackupFilenameShape(t);
    NameParts(t);
    Segments(head, y, tail);
    var n := |s|;
    assert s[..18] == head && s[18..n - 14] == y && s[n - 14..] == tail;
    assert s[12..14] == head[12..14] == Pad2(t.day);
    assert s[15..17] == head[15..17] == Pad2(t.month);
    assert s[14] == head[14] && s[17] == head[17];
    assert s[n - 14..n - 12] == tail[..2];
    assert s[n - 12..n - 10] == tail[2..4] == Pad2(t.hour);
    assert s[n - 9..n - 7] == tail[5..7] == Pad2(t.minute);
    assert s[n - 10] == tail[4];
    ValueOfPad2(t.day); ValueOfPad2(t.month); ValueOfPad2(t.hour); ValueOfPad2(t.minute);
    ValueOfDecimal(t.year);
  }

  /** Two readings get the same backup name exactly when they agree to the minute. */
  lemma BackupFilenameInjective(t: DateTime, u: DateTime)
    ensures BackupFilename(t) == BackupFilename(u) <==> MinuteOf(t) == MinuteOf(u)
  {
    ParseBackupFilenameRoundTrip(t);
    ParseBackupFilenameRoundTrip(u);
  }

  /** A name that can stand as one entry of a directory. */
  predicate ValidName(name: string) {
    name != [] && '/' !in name
  }

  /** os.path.join(a, b) on POSIX. */
  function Join(a: string, b: string): string {
    if b != [] && b[0] == '/' then b
    else if a == [] || a[|a| - 1] == '/' then a + b
    else a + "/" + b
  }

  /** os.path.basename(p): what follows the last '/', taken from the end. */
  function Basename(p: string): (b: string)
    ensures '/' !in b
    ensures |b| <= |p| && b == p[|p| - |b|..]
    ensures |b| == |p| || p[|p| - |b| - 1] == '/'
  {
    if p == [] || p[|p| - 1] == '/' then []
    else
      var b := Basename(p[..|p| - 1]) + [p[|p| - 1]];
      assert p[..|p| - 1][|p| - |b|..] + [p[|p| - 1]] == p[|p| - |b|..];
      b
  }

  /** The last component of a path that ends a directory prefix is that component. */
  lemma {:induction false} BasenameAfterSlash(dir: string, name: string)
    requires dir == [] || dir[|dir| - 1] == '/'
    requires '/' !in name
    ensures Basename(dir + name) == name
  {
    if name == [] {
      assert dir + name == dir;
    } else {
      var init := name[..|name| - 1];
      assert (dir + name)[..|dir + name| - 1] == dir + init;
      BasenameAfterSlash(dir, init);
      assert init + [name[|name| - 1]] == name;
    }
  }

  /** Joining a directory and a plain name, then taking the basename, gives the name back. */
  lemma BasenameOfJoin(dir: string, name: string)
    requires ValidName(name)
    ensures Basename(Join(dir, name)) == name
  {
    assert name[0] in name;
    if dir == [] || dir[|dir| - 1] == '/' {
      BasenameAfterSlash(dir, name);
    } else {
      assert Join(dir, name) == (dir + "/") + name;
      BasenameAfterSlash(dir + "/", name);
    }
  }

  /** os.path.join('databackup-temp', output_filename): where make_tarfile writes. */
  function ArchivePath(outputFilename: string): string {
    Join(WorkspaceDir, outputFilename)
  }

  /** os.path.basename(source_dir): the arcname of the directory make_tarfile adds. */
  function ArchiveMember(sourceDir: string): string {
    Basename(sourceDir)
  }

  /** The archive of a backup run is written inside the workspace, under its own name. */
  lemma ArchiveLayout(t: DateTime)
    ensures ArchivePath(BackupFilename(t)) == WorkspaceDir + "/" + BackupFilename(t)
    ensures Basename(ArchivePath(BackupFilename(t))) == BackupFilename(t)
  {
    var name := BackupFilename(t);
    BackupFilenameShape(t);
    assert name[0] == NamePrefix[0];
    BasenameOfJoin(WorkspaceDir, name);
  }

  /**
   * The dump directory goes into the archive as the single top-level entry
   * "databackup", which is itself an entry of the workspace folder.
   */
  lemma DumpMember()
    ensures ArchiveMember(DumpDir) == "databackup"
    ensures Join(WorkspaceDir, ArchiveMember(DumpDir)) == DumpDir
  {
    var dir, leaf := "databackup-temp/", "databackup";
    assert DumpDir == dir + leaf;
    BasenameAfterSlash(dir, leaf);
  }
}
