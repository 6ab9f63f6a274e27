/**
 * clear_older_backup: list the bucket, sort the listing by LastModified,
 * and delete every key from position keep_count on, one delete_object at a
 * time, with no handler around the calls.
 */
module Pruning {
  import opened Faults
  import opened Retention
  import opened Store

  /** The keep_count default, which the backup run relies on. */
  const DefaultKeepCount: int := 10

  /** The set of keys in ks. */
  function Elems(ks: seq<Key>): set<Key> {
    set k | k in ks
  }

  /** delete_object for each key in turn; the first one that raises ends the loop with its error. */
  function DeleteEach(st: BucketState, f: BucketFaults, keys: seq<Key>): (r: (Outcome, BucketState))
    ensures r.0 == Pass || r.0 == Fail(ClientError)
    ensures r.1.uploadCalls == st.uploadCalls
    decreases |keys|
  {
    if keys == [] then (Pass, st)
    else
      var step := DeleteEffect(st, f, keys[0]);
      if step.0.Fail? then step else DeleteEach(step.1, f, keys[1..])
  }

  /** The position of the first refused key, or |keys| when none is refused. */
  function FirstRefused(keys: seq<Key>, refused: set<Key>): (i: nat)
    ensures i <= |keys|
    ensures forall j :: 0 <= j < i ==> keys[j] !in refused
    ensures i < |keys| ==> keys[i] in refused
  {
    if keys == [] || keys[0] in refused then 0 else 1 + FirstRefused(keys[1..], refused)
  }

  /** The first refused key comes no later than any refused key. */
  lemma FirstRefusedBound(keys: seq<Key>, refused: set<Key>, j: nat)
    requires j < |keys| && keys[j] in refused
    ensures FirstRefused(keys, refused) <= j
  {
  }

  lemma {:induction false} WithoutNothing(s: seq<StoredObject>)
    ensures Without(s, {}) == s
  {
    if s != [] {
      WithoutNothing(s[1..]);
      assert s == [s[0]] + s[1..];
    }
  }

  /** One pass of the delete loop on a key that is not refused. */
  lemma DeleteEachStep(st: BucketState, f: BucketFaults, keys: seq<Key>)
    requires keys != [] && keys[0] !in f.refused
    ensures DeleteEach(st, f, keys) == DeleteEach(DeleteEffect(st, f, keys[0]).1, f, keys[1..])
    ensures DeleteEffect(st, f, keys[0]).1 == st.(deleteCalls := st.deleteCalls + [keys[0]], contents := Without(st.contents, {keys[0]}))
    ensures FirstRefused(keys, f.refused) == FirstRefused(keys[1..], f.refused) + 1
  {
  }

  /** The keys of a prefix that starts with k. */
  lemma ElemsCons(keys: seq<Key>, n: nat)
    requires 0 < n <= |keys|
    ensures Elems(keys[..n]) == {keys[0]} + Elems(keys[1..][..n - 1])
  {
    assert keys[..n] == [keys[0]] + keys[1..][..n - 1];
  }

  /** The delete loop in closed form: it fails exactly when some key is refused. */
  lemma {:induction false} DeleteEachOutcome(st: BucketState, f: BucketFaults, keys: seq<Key>)
    ensures DeleteEach(st, f, keys).0 == (if FirstRefused(keys, f.refused) < |keys| then Fail(ClientError) else Pass)
    decreases |keys|
  {
    if keys != [] && keys[0] !in f.refused {
      DeleteEachStep(st, f, keys);
      DeleteEachOutcome(DeleteEffect(st, f, keys[0]).1, f, keys[1..]);
    }
  }

  /** How many keys the delete loop requests: up to and including the first refused one. */
  function Attempted(keys: seq<Key>, refused: set<Key>): (n: nat)
    ensures n == (if FirstRefused(keys, refused) < |keys| then FirstRefused(keys, refused) + 1 else |keys|)
  {
    if keys == [] then 0 else if keys[0] in refused then 1 else 1 + Attempted(keys[1..], refused)
  }

  /** The delete loop in closed form: the keys up to and including the first refused one are requested. */
  lemma {:induction false} DeleteEachCalls(st: BucketState, f: BucketFaults, keys: seq<Key>)
    ensures DeleteEach(st, f, keys).1.deleteCalls == st.deleteCalls + keys[..Attempted(keys, f.refused)]
    decreases |keys|
  {
    if keys != [] && keys[0] !in f.refused {
      var rest := keys[1..];
      var n := Attempted(rest, f.refused);
      DeleteEachStep(st, f, keys);
      DeleteEachCalls(DeleteEffect(st, f, keys[0]).1, f, rest);
      assert keys[..n + 1] == [keys[0]] + rest[..n];
    } else if keys != [] {
      assert keys[..1] == [keys[0]];
    }
  }

  /** The delete loop in closed form: the objects left are those whose keys come before the first refused one. */
  lemma {:induction false} DeleteEachContents(st: BucketState, f: BucketFaults, keys: seq<Key>)
    ensures DeleteEach(st, f, keys).1.contents == Without(st.contents, Elems(keys[..FirstRefused(keys, f.refused)]))
    decreases |keys|
  {
    if keys == [] || keys[0] in f.refused {
      WithoutNothing(st.contents);
      assert Elems(keys[..0]) == {};
    } else {
      var rest := keys[1..];
      var m := FirstRefused(rest, f.refused);
      DeleteEachStep(st, f, keys);
      DeleteEachContents(DeleteEffect(st, f, keys[0]).1, f, rest);
      WithoutTwice(st.contents, {keys[0]}, Elems(rest[..m]));
      ElemsCons(keys, m + 1);
    }
  }

  lemma DeleteEachClosedForm(st: BucketState, f: BucketFaults, keys: seq<Key>)
    ensures var r, i := DeleteEach(st, f, keys), FirstRefused(keys, f.refused);
      && r.0 == (if i < |keys| then Fail(ClientError) else Pass)
      && r.1.deleteCalls == st.deleteCalls + keys[..if i < |keys| then i + 1 else i]
      && r.1.contents == Without(st.contents, Elems(keys[..i]))
  {
    DeleteEachOutcome(st, f, keys);
    DeleteEachCalls(st, f, keys);
    DeleteEachContents(st, f, keys);
  }

  /**
   * The whole of clear_older_backup on a bucket state: a failing listing
   * raises its error, an empty bucket raises KeyError on 'Contents' before
   * any deletion, otherwise files[keep_count:] of the sorted key list is
   * deleted in order.
   */
  function PruneSpec(st: BucketState, f: BucketFaults, keepCount: int): (r: (Outcome, BucketState))
    ensures f.listingFails ==> r == (Fail(ClientError), st)
    ensures !f.listingFails && st.contents == [] ==> r == (Fail(NoContents), st)
    ensures r.1.uploadCalls == st.uploadCalls
  {
    match ListResponse(st, f)
    case Raised(e) => (Fail(e), st)
    case Ok(None) => (Fail(NoContents), st)
    case Ok(Some(objs)) =>
      var files := Keys(SortByAge(objs));
      DeleteEach(st, f, files[SliceStart(|files|, keepCount)..])
  }

  /** The keys the loop walks over are the doomed keys. */
  lemma FilesTailIsDoomed(objs: seq<StoredObject>, keepCount: int)
    ensures Keys(SortByAge(objs))[SliceStart(|objs|, keepCount)..] == Doomed(objs, keepCount)
  {
    SplitKeys(objs, keepCount);
    assert |Keys(Survivors(objs, keepCount))| == SliceStart(|objs|, keepCount);
  }

  /** Once the listing has contents, pruning is the delete loop over the doomed keys. */
  lemma PruneIsDeleteLoop(st: BucketState, f: BucketFaults, keepCount: int)
    requires !f.listingFails && st.contents != []
    ensures PruneSpec(st, f, keepCount) == DeleteEach(st, f, Doomed(st.contents, keepCount))
  {
    assert ListResponse(st, f) == Ok(Some(st.contents));
    FilesTailIsDoomed(st.contents, keepCount);
  }

  /**
   * When no doomed key is refused, the run succeeds, exactly the doomed keys
   * are requested, in ascending order, and the objects left are exactly the
   * survivors.
   */
  lemma PruneSuccess(st: BucketState, f: BucketFaults, keepCount: int)
    requires !f.listingFails && st.contents != []
    requires DistinctKeys(st.contents)
    requires forall k :: k in Doomed(st.contents, keepCount) ==> k !in f.refused
    ensures var r := PruneSpec(st, f, keepCount);
      && r.0 == Pass
      && r.1.deleteCalls == st.deleteCalls + Doomed(st.contents, keepCount)
      && forall o :: o in r.1.contents <==> o in Survivors(st.contents, keepCount)
  {
    var d := Doomed(st.contents, keepCount);
    PruneIsDeleteLoop(st, f, keepCount);
    NoneRefused(d, f.refused);
    DeleteEachUnrefused(st, f, d);
    WithoutDoomedIsSurvivors(st.contents, keepCount);
  }

  /** With no key refused, the first refusal lies past the end. */
  lemma {:induction false} NoneRefused(keys: seq<Key>, refused: set<Key>)
    requires forall k :: k in keys ==> k !in refused
    ensures FirstRefused(keys, refused) == |keys|
  {
    if keys != [] {
      assert keys[0] in keys;
      forall k | k in keys[1..] ensures k !in refused {
        assert k in keys;
      }
      NoneRefused(keys[1..], refused);
    }
  }

  /** When no key is refused, the delete loop passes, requests every key in order and removes every one. */
  lemma DeleteEachUnrefused(st: BucketState, f: BucketFaults, keys: seq<Key>)
    requires FirstRefused(keys, f.refused) == |keys|
    ensures DeleteEach(st, f, keys) ==
      (Pass, st.(deleteCalls := st.deleteCalls + keys, contents := Without(st.contents, Elems(keys))))
  {
    DeleteEachClosedForm(st, f, keys);
    assert keys[..|keys|] == keys;
  }

  /** Removing every doomed key from the listing leaves exactly the survivors. */
  lemma WithoutDoomedIsSurvivors(objs: seq<StoredObject>, keepCount: int)
    requires DistinctKeys(objs)
    ensures forall o :: o in Without(objs, Elems(Doomed(objs, keepCount))) <==> o in Survivors(objs, keepCount)
  {
    var d := Doomed(objs, keepCount);
    forall o ensures o in Without(objs, Elems(d)) <==> o in Survivors(objs, keepCount) {
      SurvivorIff(objs, keepCount, o);
    }
  }

  /** With unique keys, an object survives exactly when it is listed and its key is not doomed. */
  lemma SurvivorIff(objs: seq<StoredObject>, keepCount: int, o: StoredObject)
    requires DistinctKeys(objs)
    ensures o in Survivors(objs, keepCount) <==> o in objs && o.key !in Doomed(objs, keepCount)
  {
    var s, p, d := SortByAge(objs), SliceStart(|objs|, keepCount), Doomed(objs, keepCount);
    SurvivorsNotDoomed(objs, keepCount);
    if o in Survivors(objs, keepCount) {
      assert o in s;
      assert o in multiset(s);
    }
    if o in objs && o.key !in d {
      assert o in multiset(s);
      var j := IndexOf(s, o);
      assert j < p;
      assert s[..p][j] == o;
    }
  }

  /**
   * Whatever happens, every key passed to delete_object is a doomed key, so
   * no surviving object's key is ever requested; and the requests are a
   * prefix of the doomed keys in order.
   */
  lemma PruneSparesSurvivors(st: BucketState, f: BucketFaults, keepCount: int)
    requires DistinctKeys(st.contents)
    ensures var r := PruneSpec(st, f, keepCount);
      && |st.deleteCalls| <= |r.1.deleteCalls|
      && r.1.deleteCalls[..|st.deleteCalls|] == st.deleteCalls
      && var asked := r.1.deleteCalls[|st.deleteCalls|..];
         && asked <= Doomed(st.contents, keepCount)
         && forall o :: o in Survivors(st.contents, keepCount) ==> o.key !in asked
  {
    var r := PruneSpec(st, f, keepCount);
    if !f.listingFails && st.contents != [] {
      var d := Doomed(st.contents, keepCount);
      FilesTailIsDoomed(st.contents, keepCount);
      DeleteEachClosedForm(st, f, d);
      SurvivorsNotDoomed(st.contents, keepCount);
      var i := FirstRefused(d, f.refused);
      var n := if i < |d| then i + 1 else i;
      assert r.1.deleteCalls == st.deleteCalls + d[..n];
      assert r.1.deleteCalls[|st.deleteCalls|..] == d[..n];
      forall o | o in Survivors(st.contents, keepCount) ensures o.key !in d[..n] {
        assert o.key !in d;
      }
    } else {
      assert r.1.deleteCalls[|st.deleteCalls|..] == [];
    }
  }

  /**
   * A refused key stops the loop: the run fails, the keys after it are
   * never requested, and every object whose key was not requested before
   * the refusal is still there.
   */
  lemma PruneStopsAtRefusal(st: BucketState, f: BucketFaults, keepCount: int, k: Key)
    requires !f.listingFails && st.contents != []
    requires k in Doomed(st.contents, keepCount) && k in f.refused
    ensures var r, d := PruneSpec(st, f, keepCount), Doomed(st.contents, keepCount);
      var i := FirstRefused(d, f.refused);
      && i < |d|
      && r.0 == Fail(ClientError)
      && r.1.deleteCalls == st.deleteCalls + d[..i + 1]
      && forall o :: o in st.contents && o.key !in d[..i] ==> o in r.1.contents
  {
    var d := Doomed(st.contents, keepCount);
    var r := PruneSpec(st, f, keepCount);
    PruneIsDeleteLoop(st, f, keepCount);
    var i := FirstRefused(d, f.refused);
    var j :| 0 <= j < |d| && d[j] == k;
    FirstRefusedBound(d, f.refused, j);
    DeleteEachClosedForm(st, f, d);
    forall o | o in st.contents && o.key !in d[..i] ensures o in r.1.contents {
      assert o.key !in Elems(d[..i]);
    }
  }

  /**
   * With the default keep_count and no refusals, the number of deletions is
   * max(0, N - 10): none for ten objects or fewer.
   */
  lemma PruneDefaultCount(st: BucketState, f: BucketFaults)
    requires !f.listingFails && st.contents != [] && f.refused == {}
    ensures var r := PruneSpec(st, f, DefaultKeepCount);
      |r.1.deleteCalls| - |st.deleteCalls| == if |st.contents| <= 10 then 0 else |st.contents| - 10
  {
    var d := Doomed(st.contents, DefaultKeepCount);
    FilesTailIsDoomed(st.contents, DefaultKeepCount);
    DeleteEachClosedForm(st, f, d);
    DoomedCount(st.contents, DefaultKeepCount);
    assert FirstRefused(d, f.refused) == |d|;
  }

  /** clear_older_backup(bucket, keep_count) against the fake client. */
  method ClearOlderBackup(client: Bucket, keepCount: int) returns (o: Outcome)
    requires client.Valid()
    modifies client
    ensures client.Valid()
    ensures (o, client.State()) == PruneSpec(old(client.State()), client.faults, keepCount)
  {
    var listing := client.ListObjectsV2();
    if listing.Raised? {
      return Fail(listing.fault);
    }
    if listing.value.None? {
      return Fail(NoContents);
    }
    var objs := listing.value.value;
    var files := Keys(SortByAge(objs));
    var doomed := files[SliceStart(|files|, keepCount)..];
    ghost var st0 := client.State();
    var i := 0;
    while i < |doomed|
      invariant 0 <= i <= |doomed|
      invariant client.Valid()
      invariant DeleteEach(st0, client.faults, doomed) == DeleteEach(client.State(), client.faults, doomed[i..])
    {
      assert doomed[i..][0] == doomed[i] && doomed[i..][1..] == doomed[i + 1..];
      o := client.DeleteObject(doomed[i]);
      if o.Fail? {
        return;
      }
      i := i + 1;
    }
    o := Pass;
  }
}
