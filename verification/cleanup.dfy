/**
 * clearBackupFiles(folder): remove every entry of the workspace folder,
 * reporting and skipping the ones that fail, then remove the folder itself,
 * whose failure propagates.
 */
module Cleanup {
  import opened Faults
  import opened Workspace

  /** The removal the loop asks for on one entry: unlink for files and links, rmtree for directories, none otherwise. */
  function OpFor(e: Entry): seq<FsOp> {
    match e.kind
    case RegularFile => [Unlink(e.name)]
    case Symlink => [Unlink(e.name)]
    case Directory => [RemoveTree(e.name)]
    case Special => []
  }

  /** The removals asked for over entries es, in order. */
  function OpsFor(es: seq<Entry>): (r: seq<FsOp>)
    ensures |r| <= |es|
    ensures RemoveFolder !in r
    ensures forall e :: e in es && (e.kind == RegularFile || e.kind == Symlink) ==> Unlink(e.name) in r
    ensures forall e :: e in es && e.kind == Directory ==> RemoveTree(e.name) in r
  {
    if es == [] then []
    else
      assert forall e :: e in es ==> e == es[0] || e in es[1..];
      OpFor(es[0]) + OpsFor(es[1..])
  }

  /** An entry the loop leaves behind: one it does not try to remove, or one whose removal fails. */
  predicate Stays(e: Entry, stuck: set<string>) {
    e.kind == Special || e.name in stuck
  }

  /** The entries of es that stay, in their order. */
  function Remaining(es: seq<Entry>, stuck: set<string>): (r: seq<Entry>)
    ensures forall e :: e in r <==> e in es && Stays(e, stuck)
  {
    if es == [] then []
    else
      assert forall e :: e in es <==> e == es[0] || e in es[1..];
      (if Stays(es[0], stuck) then [es[0]] else []) + Remaining(es[1..], stuck)
  }

  /**
   * One pass of the loop body: look at what the name is and remove it
   * accordingly; a failed removal is printed and ignored, so only the
   * state carries on.
   */
  function CleanStep(st: DiskState, f: DiskFaults, name: string): (r: DiskState)
    ensures r.present == st.present
  {
    match Lookup(st.entries, name)
    case None => st
    case Some(e) =>
      match e.kind
      case RegularFile => RemoveEffect(st, f, Unlink(name)).1
      case Symlink => RemoveEffect(st, f, Unlink(name)).1
      case Directory => RemoveEffect(st, f, RemoveTree(name)).1
      case Special => st
  }

  /** The loop over the listed names. */
  function RemoveEach(st: DiskState, f: DiskFaults, names: seq<string>): (r: DiskState)
    ensures r.present == st.present
    decreases |names|
  {
    if names == [] then st else RemoveEach(CleanStep(st, f, names[0]), f, names[1..])
  }

  /**
   * clearBackupFiles on the workspace folder: listing a missing folder
   * raises FileNotFoundError before anything is removed; otherwise every
   * entry is tried, then the folder is removed, and the run passes exactly
   * when that final removal does.
   */
  function ClearSpec(st: DiskState, f: DiskFaults): (r: (Outcome, DiskState))
    ensures !st.present ==> r == (Fail(FileNotFound), st)
    ensures st.present ==> (r.0 == Pass <==> !f.folderStuck)
    ensures st.present && r.0 == Pass ==> !r.1.present && r.1.entries == []
    ensures st.present && r.0 != Pass ==> r.0 == Fail(RemoveError) && r.1.present
  {
    match ListDirResult(st)
    case Raised(e) => (Fail(e), st)
    case Ok(names) => RemoveFolderEffect(RemoveEach(st, f, names), f)
  }

  /** Without an entry of that name, removing the name changes nothing. */
  lemma {:induction false} WithoutAbsentName(es: seq<Entry>, name: string)
    requires forall i :: 0 <= i < |es| ==> es[i].name != name
    ensures WithoutName(es, name) == es
  {
    if es != [] {
      WithoutAbsentName(es[1..], name);
      assert es == [es[0]] + es[1..];
    }
  }

  lemma {:induction false} WithoutNameAppend(a: seq<Entry>, b: seq<Entry>, name: string)
    ensures WithoutName(a + b, name) == WithoutName(a, name) + WithoutName(b, name)
  {
    if a != [] {
      assert (a + b)[0] == a[0] && (a + b)[1..] == a[1..] + b;
      WithoutNameAppend(a[1..], b, name);
    } else {
      assert a + b == b;
    }
  }

  /** Removing a name held by just one entry removes just that entry. */
  lemma WithoutUniqueName(kept: seq<Entry>, e: Entry, rest: seq<Entry>)
    requires forall i :: 0 <= i < |kept| ==> kept[i].name != e.name
    requires forall i :: 0 <= i < |rest| ==> rest[i].name != e.name
    ensures WithoutName(kept + [e] + rest, e.name) == kept + rest
  {
    assert WithoutName(kept + [e], e.name) == kept by {
      WithoutNameAppend(kept, [e], e.name);
      WithoutAbsentName(kept, e.name);
      assert WithoutName([e], e.name) == [];
      assert kept + [] == kept;
    }
    WithoutAbsentName(rest, e.name);
    WithoutNameAppend(kept + [e], rest, e.name);
  }

  /** In a folder with unique names, no other entry shares the name of the first entry of es. */
  lemma NameUnique(kept: seq<Entry>, es: seq<Entry>)
    requires es != [] && DistinctNames(kept + es)
    ensures forall i :: 0 <= i < |kept| ==> kept[i].name != es[0].name
    ensures forall i :: 0 <= i < |es| - 1 ==> es[1..][i].name != es[0].name
  {
    var all := kept + es;
    assert all[|kept|] == es[0];
    forall i | 0 <= i < |kept| ensures kept[i].name != es[0].name {
      assert all[i] == kept[i];
    }
    forall i | 0 <= i < |es| - 1 ensures es[1..][i].name != es[0].name {
      assert all[|kept| + 1 + i] == es[1..][i];
    }
  }

  /**
   * The loop in closed form: with the entries kept + es and unique names,
   * walking the names of es asks for each entry's removal in order, and
   * leaves kept followed by the entries of es that stay.
   */
  lemma {:induction false} RemoveEachForm(st: DiskState, f: DiskFaults, kept: seq<Entry>, es: seq<Entry>)
    requires st.entries == kept + es
    requires DistinctNames(kept + es)
    ensures RemoveEach(st, f, Names(es)) == st.(entries := kept + Remaining(es, f.stuck), ops := st.ops + OpsFor(es))
    decreases |es|
  {
    if es == [] {
      assert st.entries == kept + Remaining(es, f.stuck);
      assert st.ops + OpsFor(es) == st.ops;
    } else {
      var e, rest := es[0], es[1..];
      assert kept + es == kept + [e] + rest;
      assert Names(es) == [e.name] + Names(rest);
      var st1 := CleanStep(st, f, e.name);
      assert Lookup(st.entries, e.name) == Some(e) by {
        assert e in kept + es;
        LookupFinds(kept + es, e);
      }
      if Stays(e, f.stuck) {
        assert st1 == st.(ops := st.ops + OpFor(e));
        RemoveEachForm(st1, f, kept + [e], rest);
        assert Remaining(es, f.stuck) == [e] + Remaining(rest, f.stuck);
        Assoc(kept, [e], Remaining(rest, f.stuck));
      } else {
        assert st1 == st.(entries := kept + rest, ops := st.ops + OpFor(e)) by {
          NameUnique(kept, es);
          WithoutUniqueName(kept, e, rest);
        }
        WithoutNameDistinct(kept + es, e.name);
        RemoveEachForm(st1, f, kept, rest);
        assert Remaining(es, f.stuck) == Remaining(rest, f.stuck);
      }
      assert OpsFor(es) == OpFor(e) + OpsFor(rest);
      Assoc(st.ops, OpFor(e), OpsFor(rest));
    }
  }

  lemma Assoc<T>(a: seq<T>, b: seq<T>, c: seq<T>)
    ensures a + b + c == a + (b + c)
  {
  }

  /**
   * With the folder there: every entry is tried in listing order, whatever
   * happens to the others, and the folder removal is asked for last. When
   * that removal fails, what is left is exactly the entries that stay.
   */
  lemma ClearPresentFolder(st: DiskState, f: DiskFaults)
    requires st.present && DistinctNames(st.entries)
    ensures var r := ClearSpec(st, f);
      && r.1.ops == st.ops + OpsFor(st.entries) + [RemoveFolder]
      && (f.folderStuck ==> r.1.entries == Remaining(st.entries, f.stuck))
  {
    assert [] + st.entries == st.entries;
    RemoveEachForm(st, f, [], st.entries);
  }

  /**
   * A failing removal does not stop the loop: the removals asked for are
   * the same whichever entries fail.
   */
  lemma ClearIgnoresEntryFailures(st: DiskState, f: DiskFaults, g: DiskFaults)
    requires st.present && DistinctNames(st.entries)
    requires f.folderStuck == g.folderStuck
    ensures ClearSpec(st, f).1.ops == ClearSpec(st, g).1.ops
    ensures ClearSpec(st, f).0 == ClearSpec(st, g).0
  {
    ClearPresentFolder(st, f);
    ClearPresentFolder(st, g);
  }

  /** The loop body: remove one entry by kind, printing and ignoring a failure. */
  method RemoveEntry(disk: Disk, name: string)
    requires disk.Valid()
    modifies disk
    ensures disk.Valid()
    ensures disk.State() == CleanStep(old(disk.State()), disk.faults, name)
  {
    var kind := disk.KindOf(name);
    if kind == Some(RegularFile) || kind == Some(Symlink) {
      var _ := disk.Remove(Unlink(name));
    } else if kind == Some(Directory) {
      var _ := disk.Remove(RemoveTree(name));
    }
  }

  /** clearBackupFiles(folder) against the fake workspace. */
  method ClearBackupFiles(disk: Disk) returns (o: Outcome)
    requires disk.Valid()
    modifies disk
    ensures disk.Valid()
    ensures (o, disk.State()) == ClearSpec(old(disk.State()), disk.faults)
  {
    var listing := disk.ListDir();
    if listing.Raised? {
      return Fail(listing.fault);
    }
    var names := listing.value;
    ghost var st0 := disk.State();
    var i := 0;
    while i < |names|
      invariant 0 <= i <= |names|
      invariant disk.Valid()
      invariant RemoveEach(st0, disk.faults, names) == RemoveEach(disk.State(), disk.faults, names[i..])
    {
      ghost var before := disk.State();
      assert RemoveEach(before, disk.faults, names[i..]) == RemoveEach(CleanStep(before, disk.faults, names[i]), disk.faults, names[i + 1..]) by {
        assert names[i..][0] == names[i] && names[i..][1..] == names[i + 1..];
      }
      RemoveEntry(disk, names[i]);
      i := i + 1;
    }
    o := disk.RemoveTheFolder();
  }
}
