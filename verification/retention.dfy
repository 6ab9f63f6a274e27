/**
 * Which stored backups clear_older_backup deletes: the listing sorted,
 * stably, by LastModified to the second, and everything from position
 * keep_count on.
 */
module Retention {
  import opened Timestamps

  type Key = string

  /** One entry of a list_objects_v2 listing: the object's Key and LastModified. */
  datatype StoredObject = StoredObject(key: Key, lastModified: DateTime)

  /** get_last_modified: the integer the listing is sorted by. */
  function Age(o: StoredObject): nat {
    SortKey(o.lastModified)
  }

  function Keys(s: seq<StoredObject>): (ks: seq<Key>)
    ensures |ks| == |s|
    ensures forall i :: 0 <= i < |s| ==> ks[i] == s[i].key
  {
    if s == [] then [] else [s[0].key] + Keys(s[1..])
  }

  lemma {:induction false} KeysAppend(a: seq<StoredObject>, b: seq<StoredObject>)
    ensures Keys(a + b) == Keys(a) + Keys(b)
  {
  }

  /** No key occurs twice: an object store's keys are unique within a bucket. */
  predicate DistinctKeys(s: seq<StoredObject>) {
    forall i, j :: 0 <= i < j < |s| ==> s[i].key != s[j].key
  }

  predicate Ascending(s: seq<StoredObject>) {
    forall i, j :: 0 <= i < j < |s| ==> Age(s[i]) <= Age(s[j])
  }

  /** The objects of s whose sort key is k, in their order in s. */
  function WithAge(s: seq<StoredObject>, k: nat): seq<StoredObject> {
    if s == [] then [] else (if Age(s[0]) == k then [s[0]] else []) + WithAge(s[1..], k)
  }

  /**
   * Puts o in front of the first element whose key is not smaller than its
   * own, so o goes ahead of its equals.
   */
  function Insert(o: StoredObject, s: seq<StoredObject>): (r: seq<StoredObject>)
    requires Ascending(s)
    ensures |r| == |s| + 1
    ensures r[0] == o || (s != [] && r[0] == s[0])
    ensures Ascending(r)
    ensures multiset(r) == multiset(s) + multiset{o}
  {
    if s == [] || Age(o) <= Age(s[0]) then
      AscendingCons(o, s);
      [o] + s
    else
      var t := Insert(o, s[1..]);
      assert s == [s[0]] + s[1..];
      AscendingCons(s[0], t);
      [s[0]] + t
  }

  /** Putting an element no later than the head in front keeps a sequence ascending. */
  lemma AscendingCons(x: StoredObject, t: seq<StoredObject>)
    requires Ascending(t)
    requires t != [] ==> Age(x) <= Age(t[0])
    ensures Ascending([x] + t)
  {
    var r := [x] + t;
    forall i, j | 0 <= i < j < |r| ensures Age(r[i]) <= Age(r[j]) {
      assert r[j] == t[j - 1];
      if i > 0 { assert r[i] == t[i - 1]; }
    }
  }

  /**
   * sorted(objs, key=get_last_modified): ascending by sort key. Python's sort
   * is stable; inserting each element ahead of its equals in the sorted rest
   * keeps equals in listing order.
   */
  function SortByAge(s: seq<StoredObject>): (r: seq<StoredObject>)
    ensures |r| == |s|
    ensures Ascending(r)
    ensures multiset(r) == multiset(s)
  {
    if s == [] then []
    else
      assert s == [s[0]] + s[1..];
      Insert(s[0], SortByAge(s[1..]))
  }

  lemma {:induction false} InsertStable(o: StoredObject, s: seq<StoredObject>, k: nat)
    requires Ascending(s)
    ensures WithAge(Insert(o, s), k) == (if Age(o) == k then [o] else []) + WithAge(s, k)
  {
    if s == [] || Age(o) <= Age(s[0]) {
      WithAgeCons(o, s, k);
    } else {
      var t := Insert(o, s[1..]);
      assert Insert(o, s) == [s[0]] + t;
      WithAgeCons(s[0], t, k);
      InsertStable(o, s[1..], k);
      assert s == [s[0]] + s[1..];
      WithAgeCons(s[0], s[1..], k);
    }
  }

  lemma WithAgeCons(x: StoredObject, t: seq<StoredObject>, k: nat)
    ensures WithAge([x] + t, k) == (if Age(x) == k then [x] else []) + WithAge(t, k)
  {
    assert ([x] + t)[1..] == t;
  }

  /** Stability: the objects that fall in the same second keep their listing order. */
  lemma {:induction false} SortByAgeStable(s: seq<StoredObject>, k: nat)
    ensures WithAge(SortByAge(s), k) == WithAge(s, k)
  {
    if s != [] {
      SortByAgeStable(s[1..], k);
      InsertStable(s[0], SortByAge(s[1..]), k);
    }
  }

  /** Every element of a sequence sits at some index: the witness for a membership. */
  lemma IndexOf(s: seq<StoredObject>, x: StoredObject) returns (i: nat)
    requires x in multiset(s)
    ensures i < |s| && s[i] == x
  {
    i :| 0 <= i < |s| && s[i] == x;
  }

  /** The keys after the head of a sequence with distinct keys all differ from the head's. */
  lemma HeadKeyUnique(s: seq<StoredObject>)
    requires s != [] && DistinctKeys(s)
    ensures forall x :: x in multiset(s[1..]) ==> x.key != s[0].key
  {
    forall x | x in multiset(s[1..]) ensures x.key != s[0].key {
      var k := IndexOf(s[1..], x);
      assert s[k + 1] == x;
    }
  }

  lemma DistinctCons(x: StoredObject, t: seq<StoredObject>)
    requires DistinctKeys(t)
    requires forall j :: 0 <= j < |t| ==> t[j].key != x.key
    ensures DistinctKeys([x] + t)
  {
    var r := [x] + t;
    forall i, j | 0 <= i < j < |r| ensures r[i].key != r[j].key {
      assert r[j] == t[j - 1];
      if i > 0 { assert r[i] == t[i - 1]; }
    }
  }

  lemma {:induction false} InsertDistinct(o: StoredObject, s: seq<StoredObject>)
    requires Ascending(s) && DistinctKeys(s)
    requires forall i :: 0 <= i < |s| ==> s[i].key != o.key
    ensures DistinctKeys(Insert(o, s))
  {
    if s == [] || Age(o) <= Age(s[0]) {
      DistinctCons(o, s);
    } else {
      var t := Insert(o, s[1..]);
      InsertDistinct(o, s[1..]);
      HeadKeyUnique(s);
      forall j | 0 <= j < |t| ensures t[j].key != s[0].key {
        assert t[j] in multiset(t);
      }
      DistinctCons(s[0], t);
    }
  }

  /** Sorting keeps the keys distinct. */
  lemma {:induction false} SortDistinct(s: seq<StoredObject>)
    requires DistinctKeys(s)
    ensures DistinctKeys(SortByAge(s))
  {
    if s != [] {
      SortDistinct(s[1..]);
      var r := SortByAge(s[1..]);
      HeadKeyUnique(s);
      forall j | 0 <= j < |r| ensures r[j].key != s[0].key {
        assert r[j] in multiset(r);
      }
      InsertDistinct(s[0], r);
    }
  }

  /** The start index Python uses for files[keep_count:] on a list of length n. */
  function SliceStart(n: nat, keepCount: int): (i: nat)
    ensures i <= n
  {
    if keepCount >= 0 then (if keepCount < n then keepCount else n)
    else if n + keepCount > 0 then n + keepCount
    else 0
  }

  /** The objects clear_older_backup leaves alone: the first keep_count in ascending order. */
  function Survivors(objs: seq<StoredObject>, keepCount: int): seq<StoredObject> {
    SortByAge(objs)[..SliceStart(|objs|, keepCount)]
  }

  /** files[keep_count:]: the keys clear_older_backup deletes, in the order it deletes them. */
  function Doomed(objs: seq<StoredObject>, keepCount: int): seq<Key> {
    Keys(SortByAge(objs)[SliceStart(|objs|, keepCount)..])
  }

  /**
   * The deletion count for a non-negative keep_count is max(0, N - keep_count),
   * so none when N <= keep_count; the survivors number min(N, keep_count).
   */
  lemma DoomedCount(objs: seq<StoredObject>, keepCount: int)
    requires 0 <= keepCount
    ensures |Doomed(objs, keepCount)| == if |objs| <= keepCount then 0 else |objs| - keepCount
    ensures |objs| <= keepCount ==> Doomed(objs, keepCount) == []
    ensures |Survivors(objs, keepCount)| == if |objs| <= keepCount then |objs| else keepCount
  {
  }

  /** With keep_count 0 every listed object's key is deleted. */
  lemma EverythingDoomedAtZero(objs: seq<StoredObject>)
    ensures |Doomed(objs, 0)| == |objs|
    ensures forall o :: o in objs ==> o.key in Doomed(objs, 0)
  {
    var r := SortByAge(objs);
    assert r[0..] == r;
    forall o | o in objs ensures o.key in Doomed(objs, 0) {
      assert o in multiset(r);
      var i := IndexOf(r, o);
      assert Doomed(objs, 0)[i] == o.key;
    }
  }

  /** The keys of the sorted listing split into the survivors' keys, then the doomed ones. */
  lemma SplitKeys(objs: seq<StoredObject>, keepCount: int)
    ensures Keys(SortByAge(objs)) == Keys(Survivors(objs, keepCount)) + Doomed(objs, keepCount)
  {
    var r, p := SortByAge(objs), SliceStart(|objs|, keepCount);
    assert r == r[..p] + r[p..];
    KeysAppend(r[..p], r[p..]);
  }

  /** No key of a surviving object is among the deleted keys. */
  lemma SurvivorsNotDoomed(objs: seq<StoredObject>, keepCount: int)
    requires DistinctKeys(objs)
    ensures forall o :: o in Survivors(objs, keepCount) ==> o.key !in Doomed(objs, keepCount)
  {
    var r, p := SortByAge(objs), SliceStart(|objs|, keepCount);
    var d := Doomed(objs, keepCount);
    SortDistinct(objs);
    forall o | o in Survivors(objs, keepCount) ensures o.key !in d {
      var i :| 0 <= i < p && r[..p][i] == o;
      forall j | 0 <= j < |d| ensures d[j] != o.key {
        assert d[j] == r[p + j].key;
      }
    }
  }

  /**
   * The survivors are the oldest objects: every object whose key is kept is
   * no newer, to the second, than every object whose key is deleted.
   */
  lemma SurvivorsAreOldest(objs: seq<StoredObject>, keepCount: int, kept: StoredObject, gone: StoredObject)
    requires DistinctKeys(objs)
    requires kept in objs && gone in objs
    requires kept.key !in Doomed(objs, keepCount) && gone.key in Doomed(objs, keepCount)
    ensures Age(kept) <= Age(gone)
    ensures !EarlierSecond(gone.lastModified, kept.lastModified)
  {
    var r, p := SortByAge(objs), SliceStart(|objs|, keepCount);
    var d := Doomed(objs, keepCount);
    SortDistinct(objs);
    assert kept in multiset(r) && gone in multiset(r);
    var i := IndexOf(r, kept);
    var j := IndexOf(r, gone);
    var k :| 0 <= k < |d| && d[k] == gone.key;
    assert r[p + k].key == r[j].key;
    assert p <= j;
    assert i < p;
    SortKeyOrder(gone.lastModified, kept.lastModified);
  }

  /**
   * When one object is strictly the newest and there are more objects than
   * keep_count, that newest object is deleted: slicing off the tail of an
   * ascending order removes the newest backups, not the oldest.
   */
  lemma NewestIsDoomed(objs: seq<StoredObject>, keepCount: int, newest: StoredObject)
    requires 0 <= keepCount < |objs|
    requires newest in objs
    requires forall o :: o in objs && o != newest ==> Age(o) < Age(newest)
    ensures newest.key in Doomed(objs, keepCount)
  {
    var r, n := SortByAge(objs), |objs|;
    assert r[n - 1] == newest by {
      var last := r[n - 1];
      assert last in r;
      assert last in multiset(objs);
      assert newest in multiset(r);
      AscendingLast(r, newest);
      assert last in objs;
    }
    var tail := r[keepCount..];
    assert tail[n - 1 - keepCount] == newest;
    assert Doomed(objs, keepCount) == Keys(tail);
  }

  /** Nothing in an ascending sequence is later than its last element. */
  lemma AscendingLast(r: seq<StoredObject>, x: StoredObject)
    requires Ascending(r)
    requires x in multiset(r)
    ensures Age(x) <= Age(r[|r| - 1])
  {
    var i := IndexOf(r, x);
    if i < |r| - 1 {
      assert Age(r[i]) <= Age(r[|r| - 1]);
    }
  }
}
