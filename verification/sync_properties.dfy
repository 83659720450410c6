/** Properties of `init` and `sync`: step ordering, the conditional merge,
    short-circuiting on the first error, and the difference between the two
    versions of the trait. */
module SyncProperties {
  import opened Crdt
  import opened Errors
  import opened WorkDir
  import opened Store
  import opened Packing
  import opened Unpacking
  import opened Sync

  /** After `init` created the durable file, loading it yields the empty state. */
  lemma InitThenLoadYieldsNew(w: World)
    requires w.durable.Absent?
    requires Init(w).status.Done?
    requires OpenState(Durable) !in w.faults
    ensures FromFile(Init(w).world.durable, Durable, w.faults) == Ok(New())
  {
  }

  /** `init` never replaces an existing durable file, even one that does not
      deserialise. */
  lemma InitKeepsExistingFile(w: World, b: Blob)
    requires w.durable == Holds(b)
    ensures Init(w) == Outcome(w, Done)
    ensures b.Corrupt? ==> FromFile(Init(w).world.durable, Durable, w.faults).Err?
  {
  }

  /** Loading comes first: a durable file that does not load halts the sync
      before anything else happens, and nothing changes. */
  lemma SyncHaltsAtLoadExactly(v: Version, w: World)
    ensures Sync.Sync(v, w).progress.Halted? && Sync.Sync(v, w).progress.stage == Load <==>
      FromFile(w.durable, Durable, w.faults).Err?
    ensures FromFile(w.durable, Durable, w.faults).Err? ==>
      Sync.Sync(v, w) == Run(w, New(), Halted(Load, FromFile(w.durable, Durable, w.faults).error))
  {
    if FromFile(w.durable, Durable, w.faults).Ok? {
      assert Loaded(w).progress.Halted? ==> Loaded(w).progress.stage == Capture;
    }
  }

  /** `load_file` runs `pack` on the loaded state before any transfer; a
      failing `pack` halts the sync with only the read-only bits it set. */
  lemma CaptureRunsBeforeTransfer(v: Version, w: World, lib: Library)
    requires w.durable == Holds(Encode(lib)) && OpenState(Durable) !in w.faults
    ensures Loaded(w).local == Pack(lib, w.dir).lib
    ensures Loaded(w).world == w.(dir := Pack(lib, w.dir).dir)
    ensures Pack(lib, w.dir).status.Failed? ==>
      && Sync.Sync(v, w).progress == Halted(Capture, Pack(lib, w.dir).status.error)
      && Sync.Sync(v, w).world == w.(dir := Pack(lib, w.dir).dir)
  {
  }

  /** A failed pull halts before merge, unpack and persist: the working
      directory keeps only what `pack` did and the state files are unchanged. */
  lemma PullFailureHalts(v: Version, w: World)
    requires Loaded(w).progress.Running?
    requires !w.link.pullWorks || PlaceCacheFile in w.faults
    ensures Sync.Sync(v, w).progress.Halted? && Sync.Sync(v, w).progress.stage == Pull
    ensures Sync.Sync(v, w).world == Loaded(w).world
    ensures Sync.Sync(v, w).world.durable == w.durable && Sync.Sync(v, w).world.cache == w.cache
    ensures Sync.Sync(v, w).world.remote == w.remote
  {
  }

  /** The cache file after a successful pull: the remote object if there is
      one, otherwise whatever the cache file held before. */
  function PulledCache(w: World): StateFile {
    if w.remote.Holds? then w.remote else w.cache
  }

  /** The merge happens only if the cache file exists after the pull; with no
      cache file `local` is left as it was. */
  lemma MergeOnlyWhenCacheExists(w: World)
    requires Loaded(w).progress.Running?
    requires w.link.pullWorks && PlaceCacheFile !in w.faults
    ensures Merged(w).world == Loaded(w).world.(cache := PulledCache(w))
    ensures PulledCache(w).Absent? ==> Merged(w).progress.Running? && Merged(w).local == Loaded(w).local
    ensures PulledCache(w).Holds? && OpenState(Cache) !in w.faults && PulledCache(w).blob.Encoded? ==>
      && Merged(w).progress.Running?
      && Merged(w).local == Crdt.Merge(Loaded(w).local, PulledCache(w).blob.state)
    ensures PulledCache(w).Holds? && OpenState(Cache) !in w.faults && PulledCache(w).blob.Corrupt? ==>
      Merged(w).progress == Halted(Merge, Undecodable(Cache))
  {
  }

  /** The local state only grows during a sync: everything loaded from the
      durable file is still there when it is written back. */
  lemma SyncOnlyGrowsLocal(v: Version, w: World, lib: Library)
    requires w.durable == Holds(Encode(lib))
    requires Sync.Sync(v, w).progress.Running? || Sync.Sync(v, w).progress.stage == Push
    ensures Below(lib, Sync.Sync(v, w).local)
  {
    var l := Loaded(w);
    assert l.progress.Running?;
    assert Below(lib, l.local);
    assert Below(l.local, Merged(w).local);
  }

  /** `unpack` runs before persist: a sync that persisted had a successful
      unpack, and wrote back exactly the merged state. */
  lemma UnpackPrecedesPersist(v: Version, w: World)
    requires Sync.Sync(v, w).progress.Running? || Sync.Sync(v, w).progress.stage == Push
    ensures UnpackStep(v, Merged(w)).progress.Running?
    ensures Sync.Sync(v, w).local == Merged(w).local
    ensures Sync.Sync(v, w).world.dir == UnpackStep(v, Merged(w)).world.dir
    ensures Sync.Sync(v, w).world.durable == Holds(Encode(Merged(w).local))
  {
  }

  /** src/lib.rs persists by copying: after persisting, the cache file is a
      copy of the durable file's bytes.  A copy that fails before truncating
      the cache file leaves it as it was; one that fails after leaves a
      cut-off file that no longer loads.  Either way the durable file is
      already written. */
  lemma CopyingPersistDuplicatesDurable(r: Run)
    requires r.progress.Running?
    requires CreateState(Durable) !in r.world.faults && EncodeState(Durable) !in r.world.faults
    ensures PersistStep(SrcVersion, r).world.durable == Holds(Encode(r.local))
    ensures PersistStep(SrcVersion, r).progress.Running? <==>
      CopyToCache !in r.world.faults && CopyBytes !in r.world.faults
    ensures PersistStep(SrcVersion, r).progress.Running? ==>
      PersistStep(SrcVersion, r).world.cache == Holds(Encode(r.local))
    ensures CopyToCache in r.world.faults ==>
      && PersistStep(SrcVersion, r).progress == Halted(Persist, StoreIo(CopyToCache))
      && PersistStep(SrcVersion, r).world.cache == r.world.cache
    ensures CopyToCache !in r.world.faults && CopyBytes in r.world.faults ==>
      && PersistStep(SrcVersion, r).progress == Halted(Persist, StoreIo(CopyBytes))
      && FromFile(PersistStep(SrcVersion, r).world.cache, Cache, r.world.faults).Err?
  {
  }

  /** magpie/src/lib.rs persists by serialising `local` twice: a failure
      writing the cache file is reported after the durable file was written. */
  lemma ReserialisingPersistWritesBoth(r: Run)
    requires r.progress.Running?
    requires CreateState(Durable) !in r.world.faults && EncodeState(Durable) !in r.world.faults
    ensures PersistStep(MagpieVersion, r).world.durable == Holds(Encode(r.local))
    ensures PersistStep(MagpieVersion, r).progress.Running? <==>
      CreateState(Cache) !in r.world.faults && EncodeState(Cache) !in r.world.faults
    ensures CreateState(Cache) in r.world.faults ==>
      && PersistStep(MagpieVersion, r).progress == Halted(Persist, StoreIo(CreateState(Cache)))
      && PersistStep(MagpieVersion, r).world.cache == r.world.cache
    ensures CreateState(Cache) !in r.world.faults && EncodeState(Cache) in r.world.faults ==>
      && PersistStep(MagpieVersion, r).progress == Halted(Persist, StoreIo(EncodeState(Cache)))
      && PersistStep(MagpieVersion, r).world.cache == Holds(Corrupt)
  {
  }

  /** The two versions differ only in how the cache file is written: when
      neither way of writing it can fail, they behave identically. */
  lemma VersionsAgreeOutsidePersist(w: World)
    requires CopyToCache !in w.faults && CopyBytes !in w.faults
    requires CreateState(Cache) !in w.faults && EncodeState(Cache) !in w.faults
    ensures Sync.Sync(SrcVersion, w) == Sync.Sync(MagpieVersion, w)
  {
    var u := UnpackStep(SrcVersion, Merged(w));
    assert u == UnpackStep(MagpieVersion, Merged(w));
    assert PersistStep(SrcVersion, u) == PersistStep(MagpieVersion, u);
  }

  /** A failed push is reported after the merged state has been persisted
      locally; the remote keeps its old object. */
  lemma PushFailureAfterPersist(v: Version, w: World)
    requires !w.link.pushWorks
    ensures Sync.Sync(v, w).progress.Halted?
    ensures Sync.Sync(v, w).progress.stage == Push ==>
      && Sync.Sync(v, w).progress.error == PushFailed
      && Sync.Sync(v, w).world.durable == Holds(Encode(Sync.Sync(v, w).local))
      && Sync.Sync(v, w).world.cache == Sync.Sync(v, w).world.durable
      && Sync.Sync(v, w).world.remote == w.remote
  {
  }

  /** A stale cache file left by an earlier completed sync holds a state the
      durable file already contains, so merging it again when the remote
      object is absent changes nothing. */
  lemma StaleCacheMergeIsHarmless(w: World, lib: Library)
    requires w.durable == Holds(Encode(lib)) && w.cache == w.durable
    requires w.remote.Absent?
    requires w.link.pullWorks && PlaceCacheFile !in w.faults && OpenState(Cache) !in w.faults
    requires Loaded(w).progress.Running?
    ensures Merged(w).progress.Running?
    ensures Merged(w).local == Loaded(w).local
  {
    MergeOnlyWhenCacheExists(w);
    assert Below(lib, Loaded(w).local);
    MergeAbsorbs(Loaded(w).local, lib);
  }

  /** A completed sync leaves the durable file, the cache file and the remote
      object holding one state: the precondition of the stale-cache lemma. */
  lemma CompletedSyncLeavesMatchingCache(v: Version, w: World)
    requires Sync.Sync(v, w).progress.Running?
    ensures var w' := Sync.Sync(v, w).world;
      w'.durable == w'.cache && w'.cache == w'.remote && w'.durable == Holds(Encode(Sync.Sync(v, w).local))
  {
  }

  /** `load_file` makes every newly captured file read-only and adds its
      pair to the loaded state. */
  lemma LoadedCapturesNewFile(w: World, lib: Library, n: string)
    requires w.durable == Holds(Encode(lib))
    requires n in NewFiles(lib, w.dir)
    requires Loaded(w).progress.Running?
    ensures IsFile(Loaded(w).world.dir, n) && Loaded(w).world.dir.entries[Utf8(n)].readonly
    ensures (n, FileData(w.dir, n)) in Loaded(w).local.entries
  {
    var c := Pack(lib, w.dir);
    assert LoadStep(w).local == lib;
    assert c.status.Done? && Loaded(w).local == c.lib && Loaded(w).world.dir == c.dir;
  }

  /** Pull and merge leave the working directory alone and only add to the
      loaded state. */
  lemma MergedExtendsLoaded(w: World)
    requires Merged(w).progress.Running?
    ensures Loaded(w).progress.Running?
    ensures Merged(w).world.dir == Loaded(w).world.dir
    ensures Below(Loaded(w).local, Merged(w).local)
  {
  }

  /** `unpack` as written refuses to recreate a read-only file that the state
      names. */
  lemma UnpackRefusesReadOnlyFile(v: Version, r: Run, e: Entry)
    requires v.unpack == CreateEach && r.progress.Running?
    requires e in r.local.entries
    requires IsFile(r.world.dir, e.0) && r.world.dir.entries[Utf8(e.0)].readonly
    ensures UnpackStep(v, r).progress.Halted? && UnpackStep(v, r).progress.stage == Unpack
  {
    assert !CanCreate(r.world.dir, e.0);
    assert Unpacking.Unpack(r.local, r.world.dir).status.Failed?;
  }

  /** Finding: with `unpack` as written, a sync that captures a new file can
      never persist.  `pack` has just made that file read-only, and `unpack`
      then recreates every entry of the state, including the one for that
      file, so creating it is refused and the sync halts before persisting. */
  lemma CreateEachSyncNeverPersistsNewFiles(v: Version, w: World, lib: Library, n: string)
    requires v.unpack == CreateEach
    requires w.durable == Holds(Encode(lib))
    requires n in NewFiles(lib, w.dir)
    ensures Sync.Sync(v, w).progress.Halted? && Sync.Sync(v, w).progress.stage.BeforePersist()
    ensures Sync.Sync(v, w).world.durable == w.durable && Sync.Sync(v, w).world.remote == w.remote
    ensures Merged(w).progress.Running? ==> Sync.Sync(v, w).progress.stage == Unpack
  {
    var m := Merged(w);
    var u := UnpackStep(v, m);
    if m.progress.Running? {
      MergedExtendsLoaded(w);
      LoadedCapturesNewFile(w, lib, n);
      UnpackRefusesReadOnlyFile(v, m, (n, FileData(w.dir, n)));
    }
    assert u.progress.Halted? && u.progress.stage.BeforePersist();
    assert Sync.Sync(v, w) == u;
  }

  /** With `unpack` as written, a new file is still new in the directory a
      sync leaves behind: capturing only sets its read-only bit, and `unpack`
      cannot change a read-only file. */
  lemma NewFileSurvivesCreateEachSync(v: Version, w: World, lib: Library, n: string)
    requires v.unpack == CreateEach
    requires w.durable == Holds(Encode(lib))
    requires n in NewFiles(lib, w.dir)
    ensures n in NewFiles(lib, Sync.Sync(v, w).world.dir)
  {
    CreateEachSyncNeverPersistsNewFiles(v, w, lib, n);
    var m := Merged(w);
    var u := UnpackStep(v, m);
    assert Sync.Sync(v, w) == u;
    FileNamesAreFiles(w.dir, n);
    assert IsFile(m.world.dir, n) by {
      if LoadStep(w).progress.Running? {
        assert LoadStep(w).local == lib;
        SameFilesKeepsNames(w.dir, Pack(lib, w.dir).dir);
      }
    }
    if m.progress.Running? {
      MergedExtendsLoaded(w);
      LoadedCapturesNewFile(w, lib, n);
      assert Protected(m.world.dir, Utf8(n));
    }
    FileNamesAreFiles(u.world.dir, n);
  }

  /** A sync with `unpack` as written leaves the durable file as it was and
      the new file still new, so every later sync halts the same way, before
      persisting. */
  lemma CreateEachSyncIsStuck(v: Version, w: World, lib: Library, n: string)
    requires v.unpack == CreateEach
    requires w.durable == Holds(Encode(lib))
    requires n in NewFiles(lib, w.dir)
    ensures var w' := Sync.Sync(v, w).world;
      && Sync.Sync(v, w').progress.Halted? && Sync.Sync(v, w').progress.stage.BeforePersist()
      && Sync.Sync(v, w').world.durable == w.durable
  {
    CreateEachSyncNeverPersistsNewFiles(v, w, lib, n);
    NewFileSurvivesCreateEachSync(v, w, lib, n);
    CreateEachSyncNeverPersistsNewFiles(v, Sync.Sync(v, w).world, lib, n);
  }

  /** A state file that loads, or is absent. */
  predicate Decodes(f: StateFile) {
    f.Absent? || f.blob.Encoded?
  }

  /** The state a decodable file holds; an absent file adds nothing. */
  function StateOf(f: StateFile): Library
    requires Decodes(f)
  {
    if f.Absent? then New() else f.blob.state
  }

  /** An environment in which nothing fails: every file readable and
      writable, both transfers working, and every state file decodable. */
  predicate Healthy(w: World, lib: Library) {
    && w.durable == Holds(Encode(lib))
    && Decodes(w.cache) && Decodes(w.remote)
    && w.faults == {} && w.link == Link(true, true)
    && w.dir.listable && !HasInvalidName(w.dir) && w.dir.faults == {}
  }

  /** In a healthy environment `load_file` succeeds and captures every new
      file, changing only read-only bits in the directory. */
  lemma HealthyLoad(w: World, lib: Library)
    requires Healthy(w, lib)
    ensures Loaded(w).progress.Running?
    ensures Loaded(w).local == Pack(lib, w.dir).lib
    ensures Loaded(w).world == w.(dir := Pack(lib, w.dir).dir)
    ensures SameFiles(w.dir, Loaded(w).world.dir)
  {
    assert LoadStep(w).local == lib;
    assert Pack(lib, w.dir).status.Done?;
  }

  /** In a healthy environment pull and merge succeed, merging in whatever
      the remote object or the stale cache file holds. */
  lemma HealthyMerge(w: World, lib: Library)
    requires Healthy(w, lib)
    ensures Merged(w).progress.Running?
    ensures Merged(w).local == Crdt.Merge(Loaded(w).local, StateOf(PulledCache(w)))
    ensures Merged(w).world == Loaded(w).world.(cache := PulledCache(w))
  {
    HealthyLoad(w, lib);
    MergeOnlyWhenCacheExists(w);
    NewIsMergeIdentity(Loaded(w).local);
  }

  /** With no file faults the materialising `unpack` succeeds, creates every
      name the state holds, and changes nothing already there. */
  lemma HealthyMaterialize(r: Run)
    requires r.progress.Running? && r.world.dir.faults == {}
    ensures UnpackStep(MaterializingVersion, r).progress.Running?
    ensures forall e :: e in r.local.entries ==> Utf8(e.0) in UnpackStep(MaterializingVersion, r).world.dir.entries
    ensures forall k :: k in r.world.dir.entries ==>
      k in UnpackStep(MaterializingVersion, r).world.dir.entries
      && UnpackStep(MaterializingVersion, r).world.dir.entries[k] == r.world.dir.entries[k]
  {
    assert Materialize(r.local, r.world.dir).status.Done?;
  }

  /** With no store faults and working transfers, persist and push succeed
      and leave all three state files holding the local state. */
  lemma HealthyPublish(r: Run)
    requires r.progress.Running? && r.world.faults == {} && r.world.link == Link(true, true)
    ensures PushStep(PersistStep(MaterializingVersion, r)).progress.Running?
    ensures var p := PushStep(PersistStep(MaterializingVersion, r)).world;
      && p.durable == Holds(Encode(r.local))
      && p.cache == p.durable && p.remote == p.durable
      && p.dir == r.world.dir
  {
    ReserialisingPersistWritesBoth(r);
  }

  /** With the materialising `unpack`, a sync in a healthy environment
      completes: the final state is the loaded state plus the captured files
      plus the pulled state; all three state files hold it; every name in it
      exists in the working directory; nothing already there is changed
      except that newly captured files become read-only. */
  lemma MaterializingSyncCompletes(w: World, lib: Library)
    requires Healthy(w, lib)
    ensures Sync.Sync(MaterializingVersion, w).progress.Running?
    ensures Sync.Sync(MaterializingVersion, w).local == Crdt.Merge(Pack(lib, w.dir).lib, StateOf(PulledCache(w)))
    ensures var p := Sync.Sync(MaterializingVersion, w).world;
      && p.durable == Holds(Encode(Sync.Sync(MaterializingVersion, w).local))
      && p.cache == p.durable && p.remote == p.durable
    ensures forall e :: e in Sync.Sync(MaterializingVersion, w).local.entries ==>
      Utf8(e.0) in Sync.Sync(MaterializingVersion, w).world.dir.entries
    ensures forall k :: k in w.dir.entries ==>
      k in Sync.Sync(MaterializingVersion, w).world.dir.entries
      && SameNode(w.dir.entries[k], Sync.Sync(MaterializingVersion, w).world.dir.entries[k])
  {
    HealthyLoad(w, lib);
    HealthyMerge(w, lib);
    var m := Merged(w);
    HealthyMaterialize(m);
    var u := UnpackStep(MaterializingVersion, m);
    HealthyPublish(u);
    var r := PushStep(PersistStep(MaterializingVersion, u));
    assert Sync.Sync(MaterializingVersion, w) == r;
    assert r.local == m.local;
    forall k | k in w.dir.entries
      ensures k in r.world.dir.entries && SameNode(w.dir.entries[k], r.world.dir.entries[k])
    {
      assert k in m.world.dir.entries && u.world.dir.entries[k] == m.world.dir.entries[k];
    }
  }

  /** Two nodes agree on kind and contents; read-only bits may differ. */
  predicate SameNode(a: Node, b: Node) {
    (a.Regular? <==> b.Regular?) && (a.Regular? ==> a.data == b.data)
  }
}
