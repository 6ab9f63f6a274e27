/** How the script's steps end: normally, or by raising one of the exceptions it can meet. */
module Faults {

  datatype Option<T> = None | Some(value: T)

  /** The exceptions that reach the script's control flow. */
  datatype Fault =
    | FileNotFound   // FileNotFoundError from os.stat, os.listdir, tarfile or the client
    | NoContents     // KeyError: a list_objects_v2 response without 'Contents'
    | ClientError    // any other error raised by the object-store client
    | ProcessError   // mongodump exited non-zero (CalledProcessError)
    | ArchiveError   // writing the tar.gz archive failed
    | RemoveError    // os.unlink or shutil.rmtree failed

  /** A step that returns nothing: it completes, or raises. */
  datatype Outcome = Pass | Fail(fault: Fault)

  /** A step that returns a value, or raises. */
  datatype Result<T> = Ok(value: T) | Raised(fault: Fault)
}
