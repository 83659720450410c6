/** Errors and step outcomes shared by the whole model.  The program returns a
    single dynamic error type built by `?` conversions and `format_err!`; here
    each origin of an error gets a constructor of its own. */
module Errors {

  /** Operations on one file of the working directory that the environment
      can make fail. */
  datatype IoOp =
    | Read         // `File::open` followed by `read_to_end`
    | Create       // `File::create`: create, or truncate an existing file
    | Write        // `write_all`
    | SetReadOnly  // `metadata` followed by `set_permissions`

  /** The two serialised copies of the state kept outside the working directory. */
  datatype StoreFile = Durable | Cache

  /** Operations on the state files that the environment can make fail. */
  datatype StoreOp =
    | MakeParentDirs               // `create_dir_all` of the durable file's directory
    | OpenState(file: StoreFile)   // `File::open` of an existing state file
    | CreateState(file: StoreFile) // `File::create` of a state file
    | EncodeState(file: StoreFile) // the serialiser's write into a created state file
    | PlaceCacheFile               // creating the cache directory for the cache file
    | CopyToCache                  // `fs::copy` failing before the cache file is truncated
    | CopyBytes                    // `fs::copy` failing after the cache file was truncated

  datatype Error =
    | ListFailed                      // the working directory cannot be listed
    | InvalidFileName                 // a regular file whose name is not valid UTF-8
    | Io(name: string, op: IoOp)      // an operation on a working-directory file failed
    | PermissionDenied(name: string)  // `File::create` on a read-only file
    | NotAFile(name: string)          // `File::create` on a directory or other non-file
    | StoreIo(storeOp: StoreOp)       // an operation on a state file failed
    | NotFound(file: StoreFile)       // the state file does not exist
    | Undecodable(file: StoreFile)    // the state file does not deserialise
    | PullFailed                      // the transfer from the remote reported failure
    | PushFailed                      // the transfer to the remote reported failure
  {
    /** The error is about the working-directory file `n`. */
    predicate Concerns(n: string) {
      (Io? || PermissionDenied? || NotAFile?) && name == n
    }
  }

  /** The outcome of an operation that returns `Result<(), Error>`. */
  datatype Status = Done | Failed(error: Error)

  /** The outcome of an operation that returns `Result<T, Error>`. */
  datatype Result<+T> = Ok(value: T) | Err(error: Error)
}
