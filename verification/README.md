# MongoDB backup to S3, modelled in Dafny

`mongoBackupAndRestoreS3.py` is a command-line script. With `--op backup`
it does the following:

1. Dumps every MongoDB database into a temporary workspace folder,
   `databackup-temp/databackup`, using `mongodump --gzip`.
2. Packs the dump into `databackup-temp/databackup--DD-MM-YYYY--HH-MM.tar.gz`.
3. Uploads that archive to an S3 bucket under its own name.
4. Prunes the bucket: `clear_older_backup` lists the objects, sorts them
   by `LastModified` to the second and deletes `files[keep_count:]`, with
   `keep_count` 10.
5. Clears the workspace folder in a `finally` clause, whatever happened
   before. The first error raised by steps 1-4 is raised again.

This project models that control logic over two in-memory fakes:

- The workspace folder (`Workspace.Disk`). Its entries, kinds and sizes
  are modelled, and so is every removal requested.
- The bucket client (`Store.Bucket`). Its objects and every
  `delete_object` and `upload_file` call are modelled.

Failures are injected through `DiskFaults` and `BucketFaults`. They are
fixed when a fake is built and cover a failing `mongodump`, a failing
archive write, upload errors, a failing listing, refused deletions,
entries that cannot be removed, and a folder that cannot be removed. The
current time is a parameter.

Each step of the script has two parts:

- a pure function that says what the step does to a state snapshot;
- a method over the fakes, written as the script's own steps and loops.

Each method is proved equal to its function. What the script promises is
proved about those functions as lemmas.

The model follows the code where the code and its comments disagree:

- **Which backups `clear_older_backup` keeps.** Its docstring says it
  "clears older backup files". The code sorts ascending, from oldest to
  newest, and deletes from position `keep_count` on. That keeps the
  `keep_count` oldest objects and deletes the newest ones.
  `Retention.SurvivorsAreOldest` states this. `Automation.FreshBackupPrunedWhenFull`
  shows what it means for a run: once the bucket already holds ten older
  backups, the backup a run has just uploaded is deleted by the same run.
- **An empty bucket.** `list_objects_v2` then returns no `'Contents'`, and
  `clear_older_backup` raises `KeyError` before deleting anything.
- **Errors inside `finally`.** An error from removing the workspace folder
  replaces the error of the `try` block.
- **A missing workspace.** If `mongodump` fails before the workspace
  exists, `os.listdir` raises `FileNotFoundError` in the `finally` clause.
  That error, not `mongodump`'s, ends the run.

Modules, in dependency order:

| module | file | what it holds |
|---|---|---|
| `Digits` | digits.dfy | decimal digit strings: `str(n)`, two-digit padding, `int(s)` |
| `Timestamps` | timestamps.dfy | `datetime` readings, `strftime('%Y%m%d%H%M%S')` and the integer sort key |
| `Faults` | faults.dfy | the exceptions, `Outcome`, `Result`, `Option` |
| `Naming` | naming.dfy | the backup file name, `os.path.join` and `basename`, the archive path and member |
| `Retention` | retention.dfy | the stable sort by age, the survivors and the deleted keys |
| `Store` | store.dfy | the bucket state, the effect of each client call, and the `Bucket` fake |
| `Workspace` | workspace.dfy | the folder state, the effect of each file-system call, and the `Disk` fake |
| `Pruning` | pruning.dfy | `clear_older_backup` |
| `Archiving` | archive.dfy | `make_tarfile` and `backup` |
| `Uploading` | upload.dfy | `upload_to_aws` |
| `Cleanup` | cleanup.dfy | `clearBackupFiles` |
| `Automation` | automation.dfy | `backupAndRestoreAutomation` |

## Model

| member | source | states |
|---|---|---|
| Digits.Decimal | mongoBackupAndRestoreS3.py:38 | the year field is written as one or more digits with no leading zero: exactly as many digits as the value needs |
| Digits.Pad2 | mongoBackupAndRestoreS3.py:38 | `%d`, `%m`, `%H` and `%M` write exactly two digits |
| Digits.ValueOfDecimal | mongoBackupAndRestoreS3.py:38 | reading back the digits of the year gives the year |
| Digits.ValueOfPad2 | mongoBackupAndRestoreS3.py:38 | reading back a two-digit field gives the field |
| Digits.FourDigits | mongoBackupAndRestoreS3.py:38 | a year from 1000 to 9999 is written with four digits |
| Digits.ValueAppend | mongoBackupAndRestoreS3.py:75 | `int()` of two digit strings joined is the first one's value shifted by the second one's length, plus the second one's value |
| Timestamps.CompactStamp | mongoBackupAndRestoreS3.py:75 | `strftime('%Y%m%d%H%M%S')` yields only digits, so `int()` accepts it |
| Timestamps.SortKeyIsCompactStamp | mongoBackupAndRestoreS3.py:75 | `int(LastModified.strftime('%Y%m%d%H%M%S'))` equals the sort key built from the fields down to the second |
| Timestamps.SortKeyOrder | mongoBackupAndRestoreS3.py:75 | one sort key is smaller than another exactly when that reading is earlier to the second; two keys are equal exactly when the readings agree to the second, so microseconds are ignored |
| Naming.BackupFilenameShape | mongoBackupAndRestoreS3.py:38 | the backup name starts with `databackup--`, ends with `.tar.gz` and has no `/`; it is 32 characters plus the year's digits, so 36 for a four-digit year |
| Naming.ParseBackupFilenameRoundTrip | mongoBackupAndRestoreS3.py:37-38 | reading the fields back out of a backup name gives the timestamp's year, month, day, hour and minute |
| Naming.BackupFilenameInjective | mongoBackupAndRestoreS3.py:37-38 | two timestamps give the same name exactly when they agree to the minute |
| Naming.Basename | mongoBackupAndRestoreS3.py:104 | `os.path.basename` returns a suffix of the path with no `/`, which is either the whole path or follows its last `/` |
| Naming.BasenameOfJoin | mongoBackupAndRestoreS3.py:103-104 | the basename of `os.path.join(dir, name)` is `name` when `name` is a plain name |
| Naming.ArchiveLayout | mongoBackupAndRestoreS3.py:103 | the archive is written to `databackup-temp/<name>`, whose basename is the backup name |
| Naming.DumpMember | mongoBackupAndRestoreS3.py:104 | the archive's one member is `databackup`, and joining it to the workspace folder gives the directory mongodump writes to |
| Retention.Insert | mongoBackupAndRestoreS3.py:77 | inserting into an ascending list keeps it ascending and adds exactly that element |
| Retention.SortByAge | mongoBackupAndRestoreS3.py:77 | `sorted(objs, key=get_last_modified)` is ascending by sort key and a permutation of the listing |
| Retention.SortByAgeStable | mongoBackupAndRestoreS3.py:77 | objects within the same second keep their listing order after sorting |
| Retention.InsertStable | mongoBackupAndRestoreS3.py:77 | an insertion puts the new element ahead of the equal elements already in place and leaves their order unchanged |
| Retention.SortDistinct | mongoBackupAndRestoreS3.py:77 | sorting keeps the keys unique |
| Retention.Keys | mongoBackupAndRestoreS3.py:77 | `[obj['Key'] for obj in ...]` gives the keys, position by position |
| Retention.SliceStart | mongoBackupAndRestoreS3.py:78 | the start index Python uses for `files[keep_count:]` is within the list, negative counts included |
| Retention.DoomedCount | mongoBackupAndRestoreS3.py:78 | `max(0, N - keep_count)` keys are deleted, none when `N <= keep_count`, and `min(N, keep_count)` objects survive |
| Retention.EverythingDoomedAtZero | mongoBackupAndRestoreS3.py:78 | with `keep_count` 0 every listed key is deleted |
| Retention.SplitKeys | mongoBackupAndRestoreS3.py:77-78 | the sorted keys are the survivors' keys followed by the deleted keys |
| Retention.SurvivorsNotDoomed | mongoBackupAndRestoreS3.py:77-78 | no survivor's key is among the deleted keys |
| Retention.SurvivorsAreOldest | mongoBackupAndRestoreS3.py:75-78 | every kept object is no newer, to the second, than every deleted object: the oldest backups are kept |
| Retention.NewestIsDoomed | mongoBackupAndRestoreS3.py:77-78 | with more than `keep_count` objects, an object strictly newer than all others is deleted |
| Store.Without | mongoBackupAndRestoreS3.py:79 | the objects left after removing some keys are exactly those whose key was not removed |
| Store.WithoutTwice | mongoBackupAndRestoreS3.py:78-79 | removing keys in two rounds removes their union |
| Store.ListResponse | mongoBackupAndRestoreS3.py:76 | `list_objects_v2` raises when the client fails; its response has no `'Contents'` exactly when the bucket is empty, and otherwise holds every object |
| Store.DeleteEffect | mongoBackupAndRestoreS3.py:79 | `delete_object` is recorded; it raises exactly for a refused key and then removes nothing; otherwise exactly that key's object is gone |
| Store.UploadEffect | mongoBackupAndRestoreS3.py:56 | `upload_file` is recorded; it succeeds exactly when no fault is injected, and then the bucket holds the new object in place of any earlier one under that key; on failure it raises the fault and the objects are unchanged |
| Store.UploadKeepsKeysDistinct | mongoBackupAndRestoreS3.py:56 | an upload keeps the bucket's keys unique |
| Store.Bucket.ListObjectsV2 | mongoBackupAndRestoreS3.py:76 | the fake's listing is `ListResponse` of its state |
| Store.Bucket.DeleteObject | mongoBackupAndRestoreS3.py:79 | the fake's new state is `DeleteEffect` of its old state, and its keys stay unique |
| Store.Bucket.UploadFile | mongoBackupAndRestoreS3.py:56 | the fake's new state is `UploadEffect` of its old state, and its keys stay unique |
| Pruning.DeleteEach | mongoBackupAndRestoreS3.py:78-79 | the delete loop either passes or raises the client's error, and makes no upload |
| Pruning.FirstRefused | mongoBackupAndRestoreS3.py:78-79 | the position of the first refused key: every earlier key is accepted |
| Pruning.Attempted | mongoBackupAndRestoreS3.py:78-79 | the number of `delete_object` calls is up to and including the first refused key, or all keys |
| Pruning.DeleteEachOutcome | mongoBackupAndRestoreS3.py:78-79 | the loop fails exactly when some key is refused |
| Pruning.DeleteEachCalls | mongoBackupAndRestoreS3.py:78-79 | the loop requests the keys in order, up to and including the first refused one, and then stops |
| Pruning.DeleteEachContents | mongoBackupAndRestoreS3.py:78-79 | the objects removed are exactly those whose keys come before the first refused one |
| Pruning.PruneSpec | mongoBackupAndRestoreS3.py:74-80 | a failing listing raises, and an empty bucket raises `KeyError`, both before any deletion; pruning never uploads |
| Pruning.FilesTailIsDoomed | mongoBackupAndRestoreS3.py:77-78 | `files[keep_count:]` of the sorted keys is the list of deleted keys |
| Pruning.PruneIsDeleteLoop | mongoBackupAndRestoreS3.py:76-79 | once the listing has contents, pruning is the delete loop over the doomed keys |
| Pruning.NoneRefused | mongoBackupAndRestoreS3.py:78-79 | when no key is refused, the loop's first refusal lies past the last key |
| Pruning.DeleteEachUnrefused | mongoBackupAndRestoreS3.py:78-79 | with no refusal the delete loop passes, requests every key in order, and removes every one of them |
| Pruning.WithoutDoomedIsSurvivors | mongoBackupAndRestoreS3.py:77-79 | removing every doomed key from the listing leaves exactly the survivors |
| Pruning.PruneSuccess | mongoBackupAndRestoreS3.py:75-79 | with no refusal, pruning passes; exactly the doomed keys are requested, in ascending order; the objects left are exactly the survivors |
| Pruning.SurvivorIff | mongoBackupAndRestoreS3.py:77-78 | an object survives exactly when it is listed and its key is not doomed |
| Pruning.PruneSparesSurvivors | mongoBackupAndRestoreS3.py:77-79 | whatever fails, the keys requested are a prefix of the doomed keys, and no survivor's key is ever requested |
| Pruning.PruneStopsAtRefusal | mongoBackupAndRestoreS3.py:78-79 | a refused key fails the run; no later key is requested, and every object not requested before it is still there |
| Pruning.PruneDefaultCount | mongoBackupAndRestoreS3.py:67-79 | with the default `keep_count` of 10 and no refusal, `max(0, N - 10)` keys are deleted |
| Pruning.ClearOlderBackup | mongoBackupAndRestoreS3.py:67-80 | `clear_older_backup` on the fake client does exactly what `PruneSpec` says |
| Workspace.Lookup | mongoBackupAndRestoreS3.py:87-89 | finds the entry of that name, or reports that none has it |
| Workspace.LookupFinds | mongoBackupAndRestoreS3.py:87-89 | in a folder with unique names, looking up an entry's name finds that entry |
| Workspace.WithoutName | mongoBackupAndRestoreS3.py:88-90 | removing a name leaves exactly the entries with other names |
| Workspace.LookupWithout | mongoBackupAndRestoreS3.py:88-90 | removing one name leaves the lookup of every other name unchanged |
| Workspace.PutDistinct | mongoBackupAndRestoreS3.py:103 | creating or overwriting a file keeps names unique, and afterwards the name finds the new file |
| Workspace.DumpEffect | mongoBackupAndRestoreS3.py:34 | a failing `mongodump` raises and changes nothing; a successful one leaves the folder in place with the `databackup` directory in it |
| Workspace.TarEffect | mongoBackupAndRestoreS3.py:103-104 | opening the archive needs the folder; after that the file exists; adding the source passes exactly when the source is there and writing does not fail; a complete archive has the single member arcname |
| Workspace.StatResult | mongoBackupAndRestoreS3.py:54 | `os.stat` gives the size exactly when the file is there, and `FileNotFoundError` otherwise |
| Workspace.ListDirResult | mongoBackupAndRestoreS3.py:84 | `os.listdir` gives the entry names exactly when the folder exists, and `FileNotFoundError` otherwise |
| Workspace.RemoveEffect | mongoBackupAndRestoreS3.py:88-90 | `os.unlink` or `shutil.rmtree` of an entry is recorded; it fails exactly for a stuck entry, which stays; otherwise exactly that entry is gone |
| Workspace.RemoveFolderEffect | mongoBackupAndRestoreS3.py:93 | `shutil.rmtree(folder)` is recorded; it passes exactly when the folder exists and is not stuck, and then the folder is gone |
| Workspace.Disk.MongoDump | mongoBackupAndRestoreS3.py:34 | the fake's new state is `DumpEffect` of its old state, and names stay unique |
| Workspace.Disk.WriteTar | mongoBackupAndRestoreS3.py:103-104 | the fake's new state is `TarEffect` of its old state, and names stay unique |
| Workspace.Disk.Stat | mongoBackupAndRestoreS3.py:54 | the fake answers `os.stat` as `StatResult` does |
| Workspace.Disk.ListDir | mongoBackupAndRestoreS3.py:84 | the fake answers `os.listdir` as `ListDirResult` does |
| Workspace.Disk.KindOf | mongoBackupAndRestoreS3.py:87-89 | `isfile`, `islink` and `isdir` report the kind of the entry of that name, or nothing when it is not there |
| Workspace.Disk.Remove | mongoBackupAndRestoreS3.py:88-90 | the fake's new state is `RemoveEffect` of its old state |
| Workspace.Disk.RemoveTheFolder | mongoBackupAndRestoreS3.py:93 | the fake's new state is `RemoveFolderEffect` of its old state |
| Archiving.MakeTarfile | mongoBackupAndRestoreS3.py:96-104 | `make_tarfile` writes `databackup-temp/<output_filename>` holding the source directory under its basename |
| Archiving.BackupSpec | mongoBackupAndRestoreS3.py:24-40 | `backup()` never removes anything; a failing `mongodump` raises `CalledProcessError` and leaves the disk as it was |
| Archiving.Backup | mongoBackupAndRestoreS3.py:24-40 | `backup()` on the fake workspace does exactly what `BackupSpec` says |
| Archiving.ArchiveIsNotDump | mongoBackupAndRestoreS3.py:34-38 | the archive's name never clashes with the dump directory |
| Archiving.BackupAfterDump | mongoBackupAndRestoreS3.py:34-40 | after a successful dump, `backup()` returns the backup name exactly when the archive is written, and otherwise raises the archive error; either way the folder holds the dump directory and a file under that name, complete with the member `databackup` or empty |
| Uploading.UploadSpec | mongoBackupAndRestoreS3.py:42-65 | a missing local file gives `False`, draws no progress bar and never calls the client; otherwise the bar's total is the file's size and `upload_file` is called once; the call gives `True` exactly on success, `False` exactly on `FileNotFoundError`, and raises every other error unchanged; only `True` changes the bucket's objects, adding the new one |
| Uploading.UploadToAws | mongoBackupAndRestoreS3.py:42-65 | `upload_to_aws` on the fakes does exactly what `UploadSpec` says |
| Cleanup.OpsFor | mongoBackupAndRestoreS3.py:84-90 | the loop asks for at most one removal per entry, never the folder's; every file and link is unlinked and every directory removed as a tree |
| Cleanup.Remaining | mongoBackupAndRestoreS3.py:84-92 | the entries left are exactly those the loop skips or fails to remove |
| Cleanup.CleanStep | mongoBackupAndRestoreS3.py:85-92 | one pass of the loop body leaves the folder itself in place |
| Cleanup.RemoveEach | mongoBackupAndRestoreS3.py:84-92 | the loop over the entries leaves the folder itself in place |
| Cleanup.ClearSpec | mongoBackupAndRestoreS3.py:82-94 | a missing folder raises `FileNotFoundError` and nothing is removed; otherwise the run passes exactly when the folder can be removed, and then it is gone; if not, it raises the removal error and the folder stays |
| Cleanup.WithoutUniqueName | mongoBackupAndRestoreS3.py:88-90 | removing a name held by just one entry removes just that entry |
| Cleanup.RemoveEachForm | mongoBackupAndRestoreS3.py:84-92 | the loop over the listed names asks for each entry's removal in listing order and leaves exactly the entries that stay |
| Cleanup.ClearPresentFolder | mongoBackupAndRestoreS3.py:84-93 | with the folder there, every entry's removal is asked for in listing order, whatever happens to the others, then the folder's; when the folder cannot be removed, exactly the entries that stay are left, a failed folder removal being taken to remove nothing |
| Cleanup.ClearIgnoresEntryFailures | mongoBackupAndRestoreS3.py:86-92 | which entries fail changes neither the removals asked for nor the outcome |
| Cleanup.RemoveEntry | mongoBackupAndRestoreS3.py:85-92 | the loop body on the fake does exactly what `CleanStep` says |
| Cleanup.ClearBackupFiles | mongoBackupAndRestoreS3.py:82-94 | `clearBackupFiles` on the fake does exactly what `ClearSpec` says |
| Automation.TryBlock | mongoBackupAndRestoreS3.py:115-118 | only the backup step touches the workspace; the steps run are a prefix of backup, upload, prune; exactly a failed backup stops after backup, leaving the bucket untouched and its error pending |
| Automation.RunStages | mongoBackupAndRestoreS3.py:115-118 | the `try` block on the fakes does exactly what `TryBlock` says |
| Automation.BackupAndRestoreAutomation | mongoBackupAndRestoreS3.py:109-126 | the whole run on the fakes does exactly what `RunSpec` says |
| Automation.OtherOpDoesNothing | mongoBackupAndRestoreS3.py:114-126 | any op but `backup`, `restore` included, runs no step, not even the cleanup, and touches nothing |
| Automation.FinishShape | mongoBackupAndRestoreS3.py:122-124 | the `finally` clause adds the cleanup after the steps the `try` block ran, and clears the workspace it left |
| Automation.CleanupExactlyOnce | mongoBackupAndRestoreS3.py:115-124 | on every path the cleanup runs exactly once and last, after backup alone, backup and upload, or all three steps |
| Automation.AfterBackup | mongoBackupAndRestoreS3.py:116-118 | after a successful backup step the workspace exists; a successful upload, or one that gives `False`, is followed by pruning with `keep_count` 10; any other upload error ends the `try` block |
| Automation.FinishPresent | mongoBackupAndRestoreS3.py:119-124 | once the workspace exists, the run ends with the `try` block's outcome unless the folder cannot be removed, which fails the run |
| Automation.BackupFailureSkipsRest | mongoBackupAndRestoreS3.py:116-121 | a failing backup step skips upload and pruning, and the bucket is never touched |
| Automation.BackupErrorReraised | mongoBackupAndRestoreS3.py:119-124 | the backup step's error is raised again after a successful cleanup, which also removes a partial archive |
| Automation.CleanupErrorWins | mongoBackupAndRestoreS3.py:122-124 | the cleanup's error replaces the `try` block's error, including `FileNotFoundError` when `mongodump` failed before the workspace existed |
| Automation.UploadErrorSkipsPruning | mongoBackupAndRestoreS3.py:117-121 | an upload error other than `FileNotFoundError` skips pruning and is raised again after the cleanup |
| Automation.UploadFalseStillPrunes | mongoBackupAndRestoreS3.py:117-118 | `False` from the upload does not stop the run: pruning still runs, on the bucket with only the upload call added |
| Automation.PruneFailureFailsRun | mongoBackupAndRestoreS3.py:118-121 | a failing listing fails the run, and so does an empty bucket after an upload that gave `False` |
| Automation.PruneAfterUpload | mongoBackupAndRestoreS3.py:117-118 | pruning right after a successful upload, with no refusal, passes; it deletes exactly the doomed keys of the bucket as it stood after the upload and leaves exactly its survivors |
| Automation.SuccessfulRun | mongoBackupAndRestoreS3.py:114-124 | when nothing fails, the run passes after all four steps; the workspace is gone, the archive was uploaded under its own name, and the bucket keeps exactly the survivors of `keep_count` 10 |
| Automation.NewestPrunedAfterUpload | mongoBackupAndRestoreS3.py:117-118 | after uploading into a bucket of ten or more older objects, pruning deletes the new object |
| Automation.FreshBackupPrunedWhenFull | mongoBackupAndRestoreS3.py:116-118 | when the bucket already holds ten or more older backups, the run deletes the backup it has just uploaded |
| Automation.RoomAfterUpload | mongoBackupAndRestoreS3.py:117-118 | with fewer than ten objects before the upload, pruning right after it deletes nothing and keeps the new object |
| Automation.FreshBackupKeptWhileRoom | mongoBackupAndRestoreS3.py:116-118 | while the bucket holds fewer than ten objects, a run deletes nothing and keeps its fresh backup |

## Left out

- The boto3 client is not modelled as a network service. `list_objects_v2`, `delete_object` and `upload_file` act on the in-memory bucket, and their failures are injected.
- A listing is taken to hold every object in the bucket. `list_objects_v2` returns at most 1000 keys per call, and the script does not paginate, so it would prune only the first page of a larger bucket.
- The order in which S3 lists objects is taken as the bucket's sequence, with an upload listed last. S3 itself lists by key. The order matters only for objects that share a second, which keep it through the stable sort.
- Workspace.DumpEffect: `mongodump` is modelled only by its outcome. A successful run leaves the `databackup` directory. A failed run is taken to leave the disk untouched and to raise `CalledProcessError`. Two cases are not modelled. A missing `mongodump` binary makes `subprocess.check_output` raise `FileNotFoundError` instead. A dump that fails part-way can leave a partial `databackup-temp/databackup`, and can create the folder. `Automation.BackupErrorReraised` and the second clause of `Automation.CleanupErrorWins` hold only under this choice.
- gzip and tar are modelled only by the archive's path, size and single member name, not its bytes.
- Creating the client from the credentials is not modelled, and neither is the bucket name. That covers `os.getenv`, `boto3.client` and the bucket argument. The one bucket the fake stands for is the `s3bucket` option.
- The click command-line parsing is not modelled. Neither are the progress bar's drawing and updates, beyond its total, or any `print` output.
- `datetime.now()` is a parameter of the run. Field ranges are those of Python's `datetime`; whether a day exists in its month is not checked.
- The restore path is not modelled beyond doing nothing. It only prints.
- There is no concurrency. Overlapping runs are outside the model.
- `%Y` is modelled as glibc writes it, with no zero padding, so the name has 36 characters only for four-digit years.
- Archiving.MakeTarfile: requires its source directory to be an entry of the workspace folder and the output name to be a plain name. The script passes no other arguments. A source path elsewhere is not modelled.
- Uploading.UploadSpec: `local_file` is taken as a name inside the workspace folder. The script builds it from the script's own directory (`os.path.abspath(os.path.dirname(__file__))`), while `make_tarfile` writes relative to the working directory. The model assumes the two are the same directory; when they differ, the upload gives `False`, which `UploadSpec` covers as a missing file.
- Uploading.UploadSpec: `os.stat` errors other than `FileNotFoundError` are not modelled, such as a permission error, which would be raised again.
- Cleanup.ClearSpec: the folder that is cleared is taken to be the one the run fills. The `finally` clause clears `databackup-temp` inside the script's own directory (`os.path.dirname(__file__)`). `mongodump` and `make_tarfile` write to `databackup-temp` inside the working directory. When the two directories differ, `os.listdir` raises `FileNotFoundError`, or another folder of that name is cleared. Either way the dump and the archive stay on disk, and a run with a missing folder ends in failure. `Automation.SuccessfulRun`, `Automation.CleanupExactlyOnce` and the other run lemmas assume the two are the same directory.
- Workspace.RemoveFolderEffect: a failing `shutil.rmtree(folder)` is taken to remove nothing. The real call removes what it can before it raises, including the `Special` entries the loop skipped. So `Cleanup.ClearPresentFolder`'s clause about a stuck folder, that exactly the entries that stay are left, holds for the model only.
- Workspace.RemoveEffect: a failing `shutil.rmtree` of a directory entry leaves the whole entry in place. The real call may have removed part of the tree before failing.
- Workspace.TarEffect: a missing source directory raises `FileNotFoundError`. After a successful dump, `backup()` never meets that case.
