/** `CrdtPack::init` and `CrdtPack::sync`, the default methods of the trait in
    src/lib.rs and in magpie/src/lib.rs.  Sync is a linear sequence of steps
    over an abstract world; each step either advances or halts with the first
    error, and every later step leaves a halted run as it is. */
module Sync {
  import opened Crdt
  import opened Errors
  import opened WorkDir
  import opened Store
  import opened Packing
  import opened Unpacking

  /** What the transfer program will report for a pull and for a push.  With
      `--ignore-missing-args`, a pull of an absent remote object succeeds and
      leaves the cache file as it was. */
  datatype Link = Link(pullWorks: bool, pushWorks: bool)

  /** Everything the two operations read or change: the durable state file,
      the remote cache file, the working directory, the remote object, and the
      environment's failures. */
  datatype World = World(
    durable: StateFile,
    cache: StateFile,
    dir: Dir,
    remote: StateFile,
    link: Link,
    faults: set<StoreOp>)

  /** How the two versions persist: src/lib.rs copies the durable file onto
      the cache file; magpie/src/lib.rs serialises the local state again. */
  datatype PersistMode = CopyDurable | Reserialise

  /** How the local state is written into the working directory: `unpack` as
      written, or the materialising variant that skips existing paths. */
  datatype UnpackMode = CreateEach | SkipExisting

  datatype Version = Version(persist: PersistMode, unpack: UnpackMode)

  /** The trait in src/lib.rs. */
  const SrcVersion := Version(CopyDurable, CreateEach)
  /** The trait in magpie/src/lib.rs, the one the binaries use. */
  const MagpieVersion := Version(Reserialise, CreateEach)
  /** The binaries' version with the materialising unpack. */
  const MaterializingVersion := Version(Reserialise, SkipExisting)

  datatype Outcome = Outcome(world: World, status: Status)

  /** `init`: nothing to do if the durable file exists; otherwise create its
      directory and write the empty state to it. */
  function Init(w: World): (r: Outcome)
    // Only the durable file can change.
    ensures r.world == w.(durable := r.world.durable)
    ensures w.durable.Holds? ==> r == Outcome(w, Done)
    ensures r.status.Done? <==>
      w.durable.Holds?
      || (MakeParentDirs !in w.faults && CreateState(Durable) !in w.faults && EncodeState(Durable) !in w.faults)
    ensures w.durable.Absent? && r.status.Done? ==> r.world.durable == Holds(Encode(New()))
  {
    if w.durable.Holds? then Outcome(w, Done)
    else if MakeParentDirs in w.faults then Outcome(w, Failed(StoreIo(MakeParentDirs)))
    else
      var (durable, status) := ToFile(w.durable, Durable, New(), w.faults);
      Outcome(w.(durable := durable), status)
  }

  /** The steps of a sync, in order. */
  datatype Stage = Load | Capture | Pull | Merge | Unpack | Persist | Push {
    /** The step runs before anything is written to the state files. */
    predicate BeforePersist() {
      !Persist? && !Push?
    }
  }

  datatype Progress = Running | Halted(stage: Stage, error: Error)

  /** A sync in progress: the world, the in-memory `local` state, and whether
      a step has failed. */
  datatype Run = Run(world: World, local: Library, progress: Progress)

  /** Load: deserialise the durable file. */
  function LoadStep(w: World): (r: Run)
    ensures r.world == w
    ensures r.progress.Running? <==> FromFile(w.durable, Durable, w.faults).Ok?
    ensures r.progress.Running? ==> w.durable == Holds(Encode(r.local))
    ensures r.progress.Halted? ==> r.progress.stage == Load
  {
    match FromFile(w.durable, Durable, w.faults)
    case Err(e) => Run(w, New(), Halted(Load, e))
    case Ok(lib) => Run(w, lib, Running)
  }

  /** Capture: `pack` the working directory into the loaded state. */
  function CaptureStep(r: Run): (r': Run)
    ensures r.progress.Halted? ==> r' == r
    ensures r'.world == r.world.(dir := r'.world.dir)
    ensures r.progress.Running? && r'.progress.Halted? ==> r'.progress.stage == Capture
    // Capturing only adds to the state and only sets read-only bits.
    ensures Below(r.local, r'.local)
    ensures SameFiles(r.world.dir, r'.world.dir)
  {
    if r.progress.Halted? then r
    else
      var c := Pack(r.local, r.world.dir);
      Run(r.world.(dir := c.dir), c.lib,
          if c.status.Done? then Running else Halted(Capture, c.status.error))
  }

  /** Pull: place the cache file, then run the transfer from the remote. */
  function PullStep(r: Run): (r': Run)
    ensures r.progress.Halted? ==> r' == r
    ensures r'.world == r.world.(cache := r'.world.cache) && r'.local == r.local
    ensures r.progress.Running? && r'.progress.Halted? ==> r'.progress.stage == Pull
    ensures r.progress.Running? ==>
      (r'.progress.Running? <==> r.world.link.pullWorks && PlaceCacheFile !in r.world.faults)
    ensures r'.progress.Running? ==>
      r'.world.cache == (if r.world.remote.Holds? then r.world.remote else r.world.cache)
  {
    if r.progress.Halted? then r
    else if PlaceCacheFile in r.world.faults then
      r.(progress := Halted(Pull, StoreIo(PlaceCacheFile)))
    else if !r.world.link.pullWorks then r.(progress := Halted(Pull, PullFailed))
    else if r.world.remote.Absent? then r
    else r.(world := r.world.(cache := r.world.remote))
  }

  /** Merge: if the cache file exists, deserialise it and merge it in. */
  function MergeStep(r: Run): (r': Run)
    ensures r.progress.Halted? ==> r' == r
    ensures r'.world == r.world
    ensures r.progress.Running? && r'.progress.Halted? ==> r'.progress.stage == Merge
    // Merging only adds to the state; with no cache file it does nothing, and
    // it fails only when the cache file cannot be opened or decoded.
    ensures Below(r.local, r'.local)
    ensures r.world.cache.Absent? ==> r' == r
    ensures r.progress.Running? && r'.progress.Halted? ==>
      r'.progress.error == StoreIo(OpenState(Cache)) || r'.progress.error == Undecodable(Cache)
  {
    if r.progress.Halted? || r.world.cache.Absent? then r
    else
      match FromFile(r.world.cache, Cache, r.world.faults)
      case Err(e) => r.(progress := Halted(Merge, e))
      case Ok(remote) => r.(local := Crdt.Merge(r.local, remote))
  }

  /** Unpack: write the merged state into the working directory. */
  function UnpackStep(v: Version, r: Run): (r': Run)
    ensures r.progress.Halted? ==> r' == r
    ensures r'.world == r.world.(dir := r'.world.dir) && r'.local == r.local
    ensures r.progress.Running? && r'.progress.Halted? ==> r'.progress.stage == Unpack
    // Only the state's names are touched.  `unpack` as written cannot change
    // a read-only file or a non-file; the materialising variant changes
    // nothing that exists.
    ensures Touches(r.world.dir, r'.world.dir, Names(r.local))
    ensures v.unpack == CreateEach ==> forall k :: k in r.world.dir.entries && Protected(r.world.dir, k) ==>
      r'.world.dir.entries[k] == r.world.dir.entries[k]
    ensures v.unpack == SkipExisting ==> forall k :: k in r.world.dir.entries ==>
      r'.world.dir.entries[k] == r.world.dir.entries[k]
  {
    if r.progress.Halted? then r
    else
      var u := if v.unpack == CreateEach then Unpacking.Unpack(r.local, r.world.dir)
               else Materialize(r.local, r.world.dir);
      Run(r.world.(dir := u.dir), r.local,
          if u.status.Done? then Running else Halted(Unpack, u.status.error))
  }

  /** Persist: serialise the state to the durable file, then refresh the
      cache file from it. */
  function PersistStep(v: Version, r: Run): (r': Run)
    ensures r.progress.Halted? ==> r' == r
    ensures r'.world == r.world.(durable := r'.world.durable, cache := r'.world.cache) && r'.local == r.local
    ensures r.progress.Running? && r'.progress.Halted? ==> r'.progress.stage == Persist
    ensures r'.progress.Running? ==>
      r'.world.durable == Holds(Encode(r.local)) && r'.world.cache == r'.world.durable
  {
    if r.progress.Halted? then r
    else
      var (durable, status) := ToFile(r.world.durable, Durable, r.local, r.world.faults);
      var w := r.world.(durable := durable);
      if status.Failed? then Run(w, r.local, Halted(Persist, status.error))
      else if v.persist == CopyDurable then
        // `fs::copy` opens both files, truncating the cache file, before it
        // copies any byte: a failure after that leaves a cut-off copy.
        if CopyToCache in w.faults then Run(w, r.local, Halted(Persist, StoreIo(CopyToCache)))
        else if CopyBytes in w.faults then Run(w.(cache := Holds(Corrupt)), r.local, Halted(Persist, StoreIo(CopyBytes)))
        else Run(w.(cache := durable), r.local, Running)
      else
        var (cache, status') := ToFile(w.cache, Cache, r.local, w.faults);
        Run(w.(cache := cache), r.local,
            if status'.Done? then Running else Halted(Persist, status'.error))
  }

  /** Push: run the transfer of the cache file to the remote. */
  function PushStep(r: Run): (r': Run)
    ensures r.progress.Halted? ==> r' == r
    ensures r'.world == r.world.(remote := r'.world.remote) && r'.local == r.local
    ensures r.progress.Running? && r'.progress.Halted? ==>
      r'.progress == Halted(Push, PushFailed) && r'.world == r.world
    ensures r'.progress.Running? ==> r'.world.remote == r.world.cache
  {
    if r.progress.Halted? then r
    else if !r.world.link.pushWorks then r.(progress := Halted(Push, PushFailed))
    else r.(world := r.world.(remote := r.world.cache))
  }

  /** Load and capture: `load_file`. */
  function Loaded(w: World): Run {
    CaptureStep(LoadStep(w))
  }

  /** Everything up to and including the merge. */
  function Merged(w: World): Run {
    MergeStep(PullStep(Loaded(w)))
  }

  /** `sync`: load, capture, pull, merge, unpack, persist, push. */
  function Sync(v: Version, w: World): (r: Run)
    // The environment is an input, never changed.
    ensures r.world.link == w.link && r.world.faults == w.faults
    // A run that halts before persisting leaves the state files and the
    // remote as they were, except for the cache file a pull refreshed.
    ensures r.progress.Halted? && r.progress.stage.BeforePersist() ==>
      r.world.durable == w.durable && r.world.remote == w.remote
    // Once persisted, the durable file and the cache file both hold the
    // final local state; a failed push leaves the remote as it was.
    ensures r.progress.Running? || r.progress.stage == Push ==>
      r.world.durable == Holds(Encode(r.local)) && r.world.cache == r.world.durable
    ensures r.progress.Halted? && r.progress.stage == Push ==>
      r.progress.error == PushFailed && r.world.remote == w.remote
    // A completed sync publishes the local state.
    ensures r.progress.Running? ==> r.world.remote == Holds(Encode(r.local))
  {
    PushStep(PersistStep(v, UnpackStep(v, Merged(w))))
  }
}
