/**
 * The temporary workspace folder "databackup-temp" as the script sees it
 * through os, shutil, tarfile and the mongodump subprocess. Only that
 * folder and its direct entries are modelled; entries are addressed by
 * their name inside it. Failures are injected.
 */
module Workspace {
  import opened Faults

  /** What os.path reports for an entry: isfile, islink, isdir, or none of them. */
  datatype Kind = RegularFile | Symlink | Directory | Special

  /**
   * One entry of the folder. For a tar archive written by the script,
   * members holds the names of its top-level entries; it is empty otherwise.
   */
  datatype Entry = Entry(name: string, kind: Kind, size: nat, members: seq<string>)

  /** A removal the script asked for: os.unlink, shutil.rmtree of an entry, or of the folder. */
  datatype FsOp = Unlink(name: string) | RemoveTree(name: string) | RemoveFolder

  /** Whether the folder exists, its entries in os.listdir order, and the removals asked for so far. */
  datatype DiskState = DiskState(present: bool, entries: seq<Entry>, ops: seq<FsOp>)

  datatype DiskFaults = DiskFaults(
    dumpFails: bool,       // mongodump exits non-zero
    archiveFails: bool,    // adding the dump to the archive fails
    archiveSize: nat,      // the size of a completed archive
    stuck: set<string>,    // entries whose removal raises
    folderStuck: bool)     // the final rmtree of the folder raises

  /** The directory mongodump writes into, as an entry of the workspace. */
  const DumpName: string := "databackup"

  function Names(es: seq<Entry>): (ns: seq<string>)
    ensures |ns| == |es|
    ensures forall i :: 0 <= i < |es| ==> ns[i] == es[i].name
  {
    if es == [] then [] else [es[0].name] + Names(es[1..])
  }

  /** Names within one directory are unique. */
  predicate DistinctNames(es: seq<Entry>) {
    forall i, j :: 0 <= i < j < |es| ==> es[i].name != es[j].name
  }

  /** The entry called name, if there is one. */
  function Lookup(es: seq<Entry>, name: string): (r: Option<Entry>)
    ensures r.Some? ==> r.value in es && r.value.name == name
    ensures r.None? <==> forall e :: e in es ==> e.name != name
  {
    if es == [] then None
    else if es[0].name == name then Some(es[0])
    else
      assert forall e :: e in es ==> e == es[0] || e in es[1..];
      Lookup(es[1..], name)
  }

  /** In a folder with unique names, looking up an entry's name finds that entry. */
  lemma {:induction false} LookupFinds(es: seq<Entry>, e: Entry)
    requires DistinctNames(es) && e in es
    ensures Lookup(es, e.name) == Some(e)
  {
    if es[0] != e {
      assert e in es[1..];
      LookupFinds(es[1..], e);
      var k :| 0 <= k < |es[1..]| && es[1..][k] == e;
      assert es[k + 1] == e;
    }
  }

  /** The entries of es not called name, in their order. */
  function WithoutName(es: seq<Entry>, name: string): (r: seq<Entry>)
    ensures |r| <= |es|
    ensures forall e :: e in r <==> e in es && e.name != name
  {
    if es == [] then []
    else
      assert forall e :: e in es <==> e == es[0] || e in es[1..];
      (if es[0].name == name then [] else [es[0]]) + WithoutName(es[1..], name)
  }

  /** Removing one name leaves every other name's lookup as it was. */
  lemma {:induction false} LookupWithout(es: seq<Entry>, gone: string, name: string)
    requires gone != name
    ensures Lookup(WithoutName(es, gone), name) == Lookup(es, name)
  {
    if es != [] {
      LookupWithout(es[1..], gone, name);
      var t := WithoutName(es[1..], gone);
      if es[0].name == gone {
        assert WithoutName(es, gone) == t;
      } else {
        var u := [es[0]] + t;
        assert WithoutName(es, gone) == u;
        assert u[0] == es[0] && u[1..] == t;
      }
    }
  }

  lemma {:induction false} WithoutNameDistinct(es: seq<Entry>, name: string)
    requires DistinctNames(es)
    ensures DistinctNames(WithoutName(es, name))
  {
    if es != [] {
      WithoutNameDistinct(es[1..], name);
      var t := WithoutName(es[1..], name);
      if es[0].name != name {
        var r := [es[0]] + t;
        forall i, j | 0 <= i < j < |r| ensures r[i].name != r[j].name {
          assert r[j] == t[j - 1] && t[j - 1] in es[1..];
          var k :| 0 <= k < |es[1..]| && es[1..][k] == r[j];
          assert es[k + 1] == r[j];
          if i > 0 { assert r[i] == t[i - 1]; }
        }
      }
    }
  }

  /** Creating or overwriting the entry e.name: afterwards it is e, listed last. */
  function Put(es: seq<Entry>, e: Entry): (r: seq<Entry>)
    ensures forall x :: x in r <==> (x in es && x.name != e.name) || x == e
  {
    WithoutName(es, e.name) + [e]
  }

  lemma PutDistinct(es: seq<Entry>, e: Entry)
    requires DistinctNames(es)
    ensures DistinctNames(Put(es, e))
    ensures Lookup(Put(es, e), e.name) == Some(e)
  {
    WithoutNameDistinct(es, e.name);
    var t := WithoutName(es, e.name);
    var r := t + [e];
    forall i, j | 0 <= i < j < |r| ensures r[i].name != r[j].name {
      assert r[i] == t[i] && t[i] in t;
      if j < |t| { assert r[j] == t[j]; }
    }
    LookupFinds(r, e);
  }

  /**
   * mongodump --out=databackup-temp/databackup --gzip: a failed run raises
   * and leaves the disk as it was; a successful one creates the folder if
   * need be and leaves the dump directory in it.
   */
  function DumpEffect(st: DiskState, f: DiskFaults): (r: (Outcome, DiskState))
    ensures r.0 == Pass <==> !f.dumpFails
    ensures r.0 != Pass ==> r == (Fail(ProcessError), st)
    ensures r.0 == Pass ==> r.1.present && r.1.ops == st.ops
    ensures r.0 == Pass ==> Lookup(r.1.entries, DumpName) == Some(Entry(DumpName, Directory, 0, []))
  {
    var dump := Entry(DumpName, Directory, 0, []);
    if f.dumpFails then (Fail(ProcessError), st)
    else
      LookupFinds([dump], dump);
      assert Put(st.entries, dump) == WithoutName(st.entries, DumpName) + [dump];
      PutFindsLast(st.entries, dump);
      (Pass, st.(present := true, entries := Put(st.entries, dump)))
  }

  /** The entry just put is the one found under its name, whatever came before. */
  lemma PutFindsLast(es: seq<Entry>, e: Entry)
    ensures Lookup(Put(es, e), e.name) == Some(e)
  {
    var t := WithoutName(es, e.name);
    assert forall x :: x in t ==> x.name != e.name;
    LookupAfterAbsent(t, e);
  }

  lemma {:induction false} LookupAfterAbsent(t: seq<Entry>, e: Entry)
    requires forall x :: x in t ==> x.name != e.name
    ensures Lookup(t + [e], e.name) == Some(e)
  {
    if t != [] {
      assert (t + [e])[1..] == t[1..] + [e];
      assert t[0] in t;
      LookupAfterAbsent(t[1..], e);
    }
  }

  /**
   * tarfile.open(<folder>/name, "w:gz") then tar.add(<folder>/source,
   * arcname=arcname), closed by the with-block. Opening needs the folder;
   * once open, the file exists even if adding the source then fails (a
   * missing source raises FileNotFoundError, anything else while writing
   * is an archive error). A complete archive has the one member arcname.
   */
  function TarEffect(st: DiskState, f: DiskFaults, name: string, source: string, arcname: string): (r: (Outcome, DiskState))
    ensures r.1.ops == st.ops && r.1.present == st.present
    ensures !st.present ==> r == (Fail(FileNotFound), st)
    ensures r.0 == Pass <==> st.present && Lookup(st.entries, source).Some? && !f.archiveFails
    ensures r.0 == Pass ==> Lookup(r.1.entries, name) == Some(Entry(name, RegularFile, f.archiveSize, [arcname]))
    ensures st.present && r.0 != Pass ==> Lookup(r.1.entries, name) == Some(Entry(name, RegularFile, 0, []))
  {
    if !st.present then (Fail(FileNotFound), st)
    else
      var created := st.(entries := Put(st.entries, Entry(name, RegularFile, 0, [])));
      PutFindsLast(st.entries, Entry(name, RegularFile, 0, []));
      PutFindsLast(st.entries, Entry(name, RegularFile, f.archiveSize, [arcname]));
      if Lookup(st.entries, source).None? then (Fail(FileNotFound), created)
      else if f.archiveFails then (Fail(ArchiveError), created)
      else (Pass, st.(entries := Put(st.entries, Entry(name, RegularFile, f.archiveSize, [arcname]))))
  }

  /** os.stat(<folder>/name).st_size, or FileNotFoundError. */
  function StatResult(st: DiskState, name: string): (r: Result<nat>)
    ensures r.Raised? ==> r.fault == FileNotFound
    ensures r.Ok? <==> st.present && Lookup(st.entries, name).Some?
  {
    if !st.present then Raised(FileNotFound)
    else match Lookup(st.entries, name)
      case None => Raised(FileNotFound)
      case Some(e) => Ok(e.size)
  }

  /** os.listdir(folder): the entry names, or FileNotFoundError when the folder is missing. */
  function ListDirResult(st: DiskState): (r: Result<seq<string>>)
    ensures r.Raised? <==> !st.present
    ensures r.Raised? ==> r.fault == FileNotFound
    ensures r.Ok? ==> r.value == Names(st.entries)
  {
    if st.present then Ok(Names(st.entries)) else Raised(FileNotFound)
  }

  /** The name an entry removal is about. */
  function Target(op: FsOp): string
    requires !op.RemoveFolder?
  {
    match op
    case Unlink(n) => n
    case RemoveTree(n) => n
  }

  /**
   * os.unlink or shutil.rmtree of one entry: the request is recorded; a
   * stuck entry raises and stays, any other is gone.
   */
  function RemoveEffect(st: DiskState, f: DiskFaults, op: FsOp): (r: (Outcome, DiskState))
    requires !op.RemoveFolder?
    ensures r.1.ops == st.ops + [op] && r.1.present == st.present
    ensures r.0 == Pass <==> Target(op) !in f.stuck
    ensures r.0 != Pass ==> r.0 == Fail(RemoveError) && r.1.entries == st.entries
    ensures r.0 == Pass ==> forall e :: e in r.1.entries <==> e in st.entries && e.name != Target(op)
  {
    var asked := st.(ops := st.ops + [op]);
    if Target(op) in f.stuck then (Fail(RemoveError), asked)
    else (Pass, asked.(entries := WithoutName(st.entries, Target(op))))
  }

  /** shutil.rmtree(folder): recorded; it raises when the folder is stuck, otherwise the folder is gone. */
  function RemoveFolderEffect(st: DiskState, f: DiskFaults): (r: (Outcome, DiskState))
    ensures r.1.ops == st.ops + [RemoveFolder]
    ensures !st.present ==> r.0 == Fail(FileNotFound) && r.1.entries == st.entries
    ensures st.present && f.folderStuck ==> r.0 == Fail(RemoveError) && r.1.entries == st.entries && r.1.present
    ensures r.0 == Pass <==> st.present && !f.folderStuck
    ensures r.0 == Pass ==> !r.1.present && r.1.entries == []
  {
    var asked := st.(ops := st.ops + [RemoveFolder]);
    if !st.present then (Fail(FileNotFound), asked)
    else if f.folderStuck then (Fail(RemoveError), asked)
    else (Pass, asked.(present := false, entries := []))
  }

  /** The fake file system, seen from the workspace folder. */
  class Disk {
    var present: bool
    var entries: seq<Entry>
    var ops: seq<FsOp>
    const faults: DiskFaults

    function State(): DiskState
      reads this
    {
      DiskState(present, entries, ops)
    }

    ghost predicate Valid()
      reads this
    {
      DistinctNames(entries) && (!present ==> entries == [])
    }

    constructor(present: bool, entries: seq<Entry>, faults: DiskFaults)
      requires DistinctNames(entries) && (!present ==> entries == [])
      ensures Valid()
      ensures State() == DiskState(present, entries, []) && this.faults == faults
    {
      this.present := present;
      this.entries := entries;
      this.ops := [];
      this.faults := faults;
    }

    method MongoDump() returns (o: Outcome)
      requires Valid()
      modifies this
      ensures Valid()
      ensures (o, State()) == DumpEffect(old(State()), faults)
    {
      if faults.dumpFails {
        o := Fail(ProcessError);
      } else {
        PutDistinct(entries, Entry(DumpName, Directory, 0, []));
        entries := Put(entries, Entry(DumpName, Directory, 0, []));
        present := true;
        o := Pass;
      }
    }

    method WriteTar(name: string, source: string, arcname: string) returns (o: Outcome)
      requires Valid()
      modifies this
      ensures Valid()
      ensures (o, State()) == TarEffect(old(State()), faults, name, source, arcname)
    {
      if !present {
        return Fail(FileNotFound);
      }
      var found := Lookup(entries, source);
      PutDistinct(entries, Entry(name, RegularFile, 0, []));
      PutDistinct(entries, Entry(name, RegularFile, faults.archiveSize, [arcname]));
      if found.None? {
        entries := Put(entries, Entry(name, RegularFile, 0, []));
        o := Fail(FileNotFound);
      } else if faults.archiveFails {
        entries := Put(entries, Entry(name, RegularFile, 0, []));
        o := Fail(ArchiveError);
      } else {
        entries := Put(entries, Entry(name, RegularFile, faults.archiveSize, [arcname]));
        o := Pass;
      }
    }

    method Stat(name: string) returns (r: Result<nat>)
      ensures r == StatResult(State(), name)
    {
      if !present {
        return Raised(FileNotFound);
      }
      var found := Lookup(entries, name);
      if found.None? {
        r := Raised(FileNotFound);
      } else {
        r := Ok(found.value.size);
      }
    }

    method ListDir() returns (r: Result<seq<string>>)
      ensures r == ListDirResult(State())
    {
      if present {
        r := Ok(Names(entries));
      } else {
        r := Raised(FileNotFound);
      }
    }

    /** os.path.isfile / islink / isdir on an entry: its kind, or None when it is not there. */
    method KindOf(name: string) returns (k: Option<Kind>)
      ensures k == (match Lookup(entries, name) case None => None case Some(e) => Some(e.kind))
    {
      var found := Lookup(entries, name);
      if found.None? {
        k := None;
      } else {
        k := Some(found.value.kind);
      }
    }

    method Remove(op: FsOp) returns (o: Outcome)
      requires Valid() && !op.RemoveFolder?
      modifies this
      ensures Valid()
      ensures (o, State()) == RemoveEffect(old(State()), faults, op)
    {
      ops := ops + [op];
      if Target(op) in faults.stuck {
        o := Fail(RemoveError);
      } else {
        WithoutNameDistinct(entries, Target(op));
        entries := WithoutName(entries, Target(op));
        o := Pass;
      }
    }

    method RemoveTheFolder() returns (o: Outcome)
      requires Valid()
      modifies this
      ensures Valid()
      ensures (o, State()) == RemoveFolderEffect(old(State()), faults)
    {
      ops := ops + [RemoveFolder];
      if !present {
        o := Fail(FileNotFound);
      } else if faults.folderStuck {
        o := Fail(RemoveError);
      } else {
        present := false;
        entries := [];
        o := Pass;
      }
    }
  }
}
