/**
 * The S3 client the script is given, reduced to the three calls it makes on
 * one bucket: list_objects_v2, delete_object and upload_file. Failures are
 * injected: which calls raise is fixed when the fake is built.
 */
module Store {
  import opened Faults
  import opened Timestamps
  import opened Retention

  /** What the fake is told to do wrong, and the clock it stamps uploads with. */
  datatype BucketFaults = BucketFaults(
    listingFails: bool,        // list_objects_v2 raises
    refused: set<Key>,         // delete_object raises for these keys
    uploadFault: Option<Fault>, // upload_file raises this
    clock: DateTime)           // the LastModified given to an uploaded object

  /**
   * The bucket's objects in listing order, and the calls made on it so far:
   * every delete_object key and every upload_file key, in order, whether the
   * call succeeded or not.
   */
  datatype BucketState = BucketState(contents: seq<StoredObject>, deleteCalls: seq<Key>, uploadCalls: seq<Key>)

  /** The objects of s whose key is not in gone, in their order in s. */
  function Without(s: seq<StoredObject>, gone: set<Key>): (r: seq<StoredObject>)
    ensures |r| <= |s|
    ensures forall o :: o in r <==> o in s && o.key !in gone
  {
    if s == [] then []
    else
      assert forall o :: o in s <==> o == s[0] || o in s[1..];
      (if s[0].key in gone then [] else [s[0]]) + Without(s[1..], gone)
  }

  /** Removing one set of keys and then another removes their union. */
  lemma {:induction false} WithoutTwice(s: seq<StoredObject>, a: set<Key>, b: set<Key>)
    ensures Without(Without(s, a), b) == Without(s, a + b)
  {
    if s != [] {
      WithoutTwice(s[1..], a, b);
      var t := Without(s[1..], a);
      var rest := Without(s[1..], a + b);
      if s[0].key in a {
        assert Without(s, a) == t;
        assert Without(s, a + b) == rest;
      } else {
        var u := [s[0]] + t;
        assert Without(s, a) == u;
        assert u[1..] == t;
        assert Without(u, b) == (if s[0].key in b then [] else [s[0]]) + Without(t, b);
        assert Without(s, a + b) == (if s[0].key in b then [] else [s[0]]) + rest;
      }
    }
  }

  /** Removing keys no object has changes nothing. */
  lemma {:induction false} WithoutAbsent(s: seq<StoredObject>, gone: set<Key>)
    requires forall i :: 0 <= i < |s| ==> s[i].key !in gone
    ensures Without(s, gone) == s
  {
    if s != [] {
      WithoutAbsent(s[1..], gone);
      assert s == [s[0]] + s[1..];
    }
  }

  lemma {:induction false} WithoutDistinct(s: seq<StoredObject>, gone: set<Key>)
    requires DistinctKeys(s)
    ensures DistinctKeys(Without(s, gone))
  {
    if s != [] {
      WithoutDistinct(s[1..], gone);
      if s[0].key !in gone {
        var t := Without(s[1..], gone);
        HeadKeyUnique(s);
        forall j | 0 <= j < |t| ensures t[j].key != s[0].key {
          assert t[j] in t;
          assert t[j] in multiset(s[1..]);
        }
        DistinctCons(s[0], t);
      }
    }
  }

  /**
   * list_objects_v2(Bucket=...) as the script reads it: the call may raise;
   * an empty bucket gives a response without 'Contents' (None here);
   * otherwise 'Contents' holds every object.
   */
  function ListResponse(st: BucketState, f: BucketFaults): (r: Result<Option<seq<StoredObject>>>)
    ensures r.Raised? <==> f.listingFails
    ensures r == Ok(None) <==> !f.listingFails && st.contents == []
    ensures r.Ok? && r.value.Some? ==> r.value.value == st.contents != []
  {
    if f.listingFails then Raised(ClientError)
    else if st.contents == [] then Ok(None)
    else Ok(Some(st.contents))
  }

  /**
   * delete_object(Bucket=..., Key=key): the call is recorded; a refused key
   * raises and nothing is removed; otherwise the object with that key, if
   * any, is gone (deleting a missing key succeeds, as on S3).
   */
  function DeleteEffect(st: BucketState, f: BucketFaults, key: Key): (r: (Outcome, BucketState))
    ensures r.1.deleteCalls == st.deleteCalls + [key] && r.1.uploadCalls == st.uploadCalls
    ensures r.0 == Pass <==> key !in f.refused
    ensures r.0 != Pass ==> r.0 == Fail(ClientError) && r.1.contents == st.contents
    ensures r.0 == Pass ==> forall o :: o in r.1.contents <==> o in st.contents && o.key != key
  {
    var called := st.(deleteCalls := st.deleteCalls + [key]);
    if key in f.refused then (Fail(ClientError), called)
    else (Pass, called.(contents := Without(st.contents, {key})))
  }

  /**
   * upload_file(local_file, bucket, key): the call is recorded; on success
   * the bucket holds exactly one object under key, stamped with the clock,
   * replacing any earlier one, and listed last.
   */
  function UploadEffect(st: BucketState, f: BucketFaults, key: Key): (r: (Outcome, BucketState))
    ensures r.1.uploadCalls == st.uploadCalls + [key] && r.1.deleteCalls == st.deleteCalls
    ensures r.0 == Pass <==> f.uploadFault.None?
    ensures r.0 != Pass ==> r.0 == Fail(f.uploadFault.value) && r.1.contents == st.contents
    ensures r.0 == Pass ==> forall o :: o in r.1.contents <==>
      (o in st.contents && o.key != key) || o == StoredObject(key, f.clock)
  {
    var called := st.(uploadCalls := st.uploadCalls + [key]);
    match f.uploadFault
    case Some(e) => (Fail(e), called)
    case None => (Pass, called.(contents := Without(st.contents, {key}) + [StoredObject(key, f.clock)]))
  }

  /** An upload keeps the bucket's keys unique. */
  lemma UploadKeepsKeysDistinct(st: BucketState, f: BucketFaults, key: Key)
    requires DistinctKeys(st.contents)
    ensures DistinctKeys(UploadEffect(st, f, key).1.contents)
  {
    WithoutDistinct(st.contents, {key});
    var t := Without(st.contents, {key});
    var r := t + [StoredObject(key, f.clock)];
    forall i, j | 0 <= i < j < |r| ensures r[i].key != r[j].key {
      if j == |t| {
        assert r[i] == t[i] && t[i] in t;
      } else {
        assert r[i] == t[i] && r[j] == t[j];
      }
    }
  }

  /** The fake client over one bucket. */
  class Bucket {
    var contents: seq<StoredObject>
    var deleteCalls: seq<Key>
    var uploadCalls: seq<Key>
    const faults: BucketFaults

    function State(): BucketState
      reads this
    {
      BucketState(contents, deleteCalls, uploadCalls)
    }

    /** Object keys are unique within a bucket. */
    ghost predicate Valid()
      reads this
    {
      DistinctKeys(contents)
    }

    constructor(contents: seq<StoredObject>, faults: BucketFaults)
      requires DistinctKeys(contents)
      ensures Valid()
      ensures State() == BucketState(contents, [], []) && this.faults == faults
    {
      this.contents := contents;
      this.deleteCalls := [];
      this.uploadCalls := [];
      this.faults := faults;
    }

    method ListObjectsV2() returns (r: Result<Option<seq<StoredObject>>>)
      ensures r == ListResponse(State(), faults)
    {
      if faults.listingFails {
        r := Raised(ClientError);
      } else if contents == [] {
        r := Ok(None);
      } else {
        r := Ok(Some(contents));
      }
    }

    method DeleteObject(key: Key) returns (o: Outcome)
      requires Valid()
      modifies this
      ensures Valid()
      ensures (o, State()) == DeleteEffect(old(State()), faults, key)
    {
      deleteCalls := deleteCalls + [key];
      if key in faults.refused {
        o := Fail(ClientError);
      } else {
        WithoutDistinct(contents, {key});
        contents := Without(contents, {key});
        o := Pass;
      }
    }

    method UploadFile(key: Key) returns (o: Outcome)
      requires Valid()
      modifies this
      ensures Valid()
      ensures (o, State()) == UploadEffect(old(State()), faults, key)
    {
      UploadKeepsKeysDistinct(State(), faults, key);
      uploadCalls := uploadCalls + [key];
      if faults.uploadFault.Some? {
        o := Fail(faults.uploadFault.value);
      } else {
        contents := Without(contents, {key}) + [StoredObject(key, faults.clock)];
        o := Pass;
      }
    }
  }
}
