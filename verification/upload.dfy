/**
 * upload_to_aws: stat the local archive to size the progress bar, then
 * upload_file it under the given key. A missing file is reported as False;
 * any other error is re-raised.
 */
module Uploading {
  import opened Faults
  import opened Retention
  import opened Store
  import opened Workspace

  /**
   * What one call produces: the status it returns or the error it raises,
   * the length of the progress bar it created (None when it never got that
   * far), and the bucket afterwards.
   */
  datatype UploadRun = UploadRun(status: Result<bool>, barLength: Option<nat>, bucket: BucketState)

  /**
   * upload_to_aws(local_file, bucket, s3_file) with local_file an entry of
   * the workspace folder. A file that is not there gives False before the
   * client is used. Otherwise the bar's total is the file's size,
   * upload_file is called once with the key, and the call returns True
   * exactly when the upload succeeds, False when upload_file raised
   * FileNotFoundError, and raises every other error unchanged. True means
   * the object is in the bucket under the key, stamped with the upload
   * time, in place of any earlier one; anything else leaves the bucket's
   * objects as they were.
   */
  function UploadSpec(ds: DiskState, bs: BucketState, bf: BucketFaults, localName: string, key: Key): (r: UploadRun)
    ensures !ds.present || Lookup(ds.entries, localName).None? ==> r == UploadRun(Ok(false), None, bs)
    ensures ds.present && Lookup(ds.entries, localName).Some? ==>
      && r.barLength == Some(Lookup(ds.entries, localName).value.size)
      && r.bucket.uploadCalls == bs.uploadCalls + [key]
      && r.bucket.deleteCalls == bs.deleteCalls
      && (r.status == Ok(true) <==> bf.uploadFault.None?)
      && (r.status == Ok(false) <==> bf.uploadFault == Some(FileNotFound))
      && (r.status.Raised? <==> bf.uploadFault.Some? && bf.uploadFault.value != FileNotFound)
      && (r.status.Raised? ==> r.status.fault == bf.uploadFault.value)
    ensures r.status == Ok(true) ==> forall o :: o in r.bucket.contents <==>
      (o in bs.contents && o.key != key) || o == StoredObject(key, bf.clock)
    ensures r.status != Ok(true) ==> r.bucket.contents == bs.contents
  {
    match StatResult(ds, localName)
    case Raised(_) => UploadRun(Ok(false), None, bs)
    case Ok(size) =>
      var u := UploadEffect(bs, bf, key);
      var status := match u.0
        case Pass => Ok(true)
        case Fail(FileNotFound) => Ok(false)
        case Fail(e) => Raised(e);
      UploadRun(status, Some(size), u.1)
  }

  /** upload_to_aws against the fake workspace and client. */
  method UploadToAws(disk: Disk, client: Bucket, localName: string, key: Key) returns (status: Result<bool>, barLength: Option<nat>)
    requires client.Valid()
    modifies client
    ensures client.Valid()
    ensures UploadRun(status, barLength, client.State()) == UploadSpec(disk.State(), old(client.State()), client.faults, localName, key)
  {
    var stat := disk.Stat(localName);
    if stat.Raised? {
      return Ok(false), None;
    }
    barLength := Some(stat.value);
    var o := client.UploadFile(key);
    if o.Pass? {
      status := Ok(true);
    } else if o.fault == FileNotFound {
      status := Ok(false);
    } else {
      status := Raised(o.fault);
    }
  }
}
