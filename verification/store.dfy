/** The state files (`from_file` and `to_file` in src/lib.rs and
    magpie/src/lib.rs).  The binary encoding is not modelled: a file holds the
    serialisation of a library, or bytes that do not deserialise. */
module Store {
  import opened Crdt
  import opened Errors

  datatype Blob = Encoded(state: Library) | Corrupt

  /** A state file on disk: absent, or holding a blob. */
  datatype StateFile = Absent | Holds(blob: Blob)

  function Encode(lib: Library): Blob {
    Encoded(lib)
  }

  /** `from_file`: open the file, then deserialise it. */
  function FromFile(f: StateFile, which: StoreFile, faults: set<StoreOp>): (r: Result<Library>)
    ensures r.Ok? <==> f.Holds? && f.blob.Encoded? && OpenState(which) !in faults
    ensures r.Ok? ==> f == Holds(Encode(r.value))
    ensures f.Absent? ==> r == Err(NotFound(which))
  {
    match f
    case Absent => Err(NotFound(which))
    case Holds(b) =>
      if OpenState(which) in faults then Err(StoreIo(OpenState(which)))
      else if b.Corrupt? then Err(Undecodable(which))
      else Ok(b.state)
  }

  /** `to_file`: `File::create` (which truncates), then serialise into it.  A
      failed create leaves the file as it was; a failed write leaves a
      truncated file that no longer deserialises. */
  function ToFile(f: StateFile, which: StoreFile, lib: Library, faults: set<StoreOp>): (r: (StateFile, Status))
    ensures r.1.Done? <==> CreateState(which) !in faults && EncodeState(which) !in faults
    ensures r.1.Done? ==> r.0 == Holds(Encode(lib))
    ensures CreateState(which) in faults ==> r.0 == f
    ensures CreateState(which) !in faults && EncodeState(which) in faults ==> r.0 == Holds(Corrupt)
  {
    if CreateState(which) in faults then (f, Failed(StoreIo(CreateState(which))))
    else if EncodeState(which) in faults then (Holds(Corrupt), Failed(StoreIo(EncodeState(which))))
    else (Holds(Encode(lib)), Done)
  }

  /** Writing a library and reading it back yields the same library. */
  lemma ToFileThenFromFile(f: StateFile, which: StoreFile, lib: Library, faults: set<StoreOp>)
    requires ToFile(f, which, lib, faults).1.Done?
    requires OpenState(which) !in faults
    ensures FromFile(ToFile(f, which, lib, faults).0, which, faults) == Ok(lib)
  {
  }

  /** A write that fails after the create leaves a file that no longer loads. */
  lemma FailedWriteCorrupts(f: StateFile, which: StoreFile, lib: Library, faults: set<StoreOp>)
    requires CreateState(which) !in faults && EncodeState(which) in faults
    ensures FromFile(ToFile(f, which, lib, faults).0, which, faults).Err?
  {
  }
}
