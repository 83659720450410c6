/** Two replicas, each starting from `init`'s empty state with one file of its
    own, syncing through one remote object. */
module Scenarios {
  import opened Crdt
  import opened Errors
  import opened WorkDir
  import opened Store
  import opened Packing
  import opened Unpacking
  import opened Sync
  import opened SyncProperties

  /** "hello" and "world" as UTF-8 bytes. */
  const Hello: Bytes := [104, 101, 108, 108, 111]
  const WorldText: Bytes := [119, 111, 114, 108, 100]

  /** A working directory holding one writable regular file. */
  function OneFile(n: string, data: Bytes): Dir {
    Dir(map[Utf8(n) := Regular(data, false)], true, {})
  }

  /** A replica right after `init`, with one file of its own and the given
      remote object. */
  function Replica(n: string, data: Bytes, remote: StateFile): World {
    World(Holds(Encode(New())), Absent, OneFile(n, data), remote, Link(true, true), {})
  }

  lemma OneFileNames(n: string, data: Bytes)
    ensures FileNames(OneFile(n, data)) == {n}
    ensures !HasInvalidName(OneFile(n, data))
    ensures IsFile(OneFile(n, data), n) && FileData(OneFile(n, data), n) == data
  {
    var d := OneFile(n, data);
    FileNamesAreFiles(d, n);
    forall m | m in FileNames(d) ensures m == n {
      FileNamesAreFiles(d, m);
    }
  }

  /** Packing a directory of one file the state does not name yet adds
      exactly that file and makes it read-only. */
  lemma PackOneFile(lib: Library, n: string, data: Bytes)
    requires n !in Names(lib)
    ensures Pack(lib, OneFile(n, data)).status.Done?
    ensures Pack(lib, OneFile(n, data)).lib == Insert(lib, (n, data))
    ensures Pack(lib, OneFile(n, data)).dir.entries == map[Utf8(n) := Regular(data, true)]
  {
    PackOneFileState(lib, n, data);
    PackOneFileDir(lib, n, data);
  }

  lemma PackOneFileState(lib: Library, n: string, data: Bytes)
    requires n !in Names(lib)
    ensures Pack(lib, OneFile(n, data)).status.Done?
    ensures Pack(lib, OneFile(n, data)).lib == Insert(lib, (n, data))
  {
    var d := OneFile(n, data);
    OneFileNames(n, data);
    assert NewFiles(lib, d) == {n};
    assert (set m | m in NewFiles(lib, d) :: (m, FileData(d, m))) == {(n, data)};
  }

  lemma PackOneFileDir(lib: Library, n: string, data: Bytes)
    requires n !in Names(lib)
    ensures Pack(lib, OneFile(n, data)).dir.entries == map[Utf8(n) := Regular(data, true)]
  {
    var d := OneFile(n, data);
    PackOneFileState(lib, n, data);
    OneFileNames(n, data);
    PackMarksNewFiles(lib, d, n);
  }

  /** A replica with one file of its own is healthy, and syncing it with the
      materialising `unpack` publishes its state merged with the remote's. */
  lemma ReplicaSync(n: string, data: Bytes, remote: StateFile)
    requires Decodes(remote)
    ensures Sync.Sync(MaterializingVersion, Replica(n, data, remote)).progress.Running?
    ensures Sync.Sync(MaterializingVersion, Replica(n, data, remote)).local
      == Crdt.Merge(Library({(n, data)}), StateOf(remote))
    ensures var p := Sync.Sync(MaterializingVersion, Replica(n, data, remote)).world;
      p.durable == Holds(Encode(Crdt.Merge(Library({(n, data)}), StateOf(remote))))
      && p.remote == p.durable
  {
    var w := Replica(n, data, remote);
    OneFileNames(n, data);
    assert Healthy(w, New());
    PackOneFile(New(), n, data);
    assert Pack(New(), w.dir).lib == Library({(n, data)});
    assert PulledCache(w) == remote;
    MaterializingSyncCompletes(w, New());
  }

  /** The names of a state of two entries. */
  lemma NamesOfPair(n: string, x: Bytes, m: string, y: Bytes)
    ensures Names(Library({(n, x), (m, y)})) == {n, m}
  {
    assert (n, x) in Library({(n, x), (m, y)}).entries;
    assert (m, y) in Library({(n, x), (m, y)}).entries;
  }

  lemma MergeOfSingletons(n: string, x: Bytes, m: string, y: Bytes)
    ensures Crdt.Merge(Library({(n, x)}), Library({(m, y)})) == Library({(m, y), (n, x)})
  {
    assert {(n, x)} + {(m, y)} == {(m, y), (n, x)};
  }

  /** After pull and merge, a fresh replica holds its own file, read-only,
      and its state is that file merged with the remote's state. */
  lemma ReplicaMerged(n: string, data: Bytes, remote: Library)
    ensures Merged(Replica(n, data, Holds(Encode(remote)))).progress.Running?
    ensures Merged(Replica(n, data, Holds(Encode(remote)))).local == Crdt.Merge(Library({(n, data)}), remote)
    ensures Merged(Replica(n, data, Holds(Encode(remote)))).world
      == Replica(n, data, Holds(Encode(remote))).(dir := Dir(map[Utf8(n) := Regular(data, true)], true, {}),
                                                  cache := Holds(Encode(remote)))
  {
    var w := Replica(n, data, Holds(Encode(remote)));
    OneFileNames(n, data);
    assert Healthy(w, New());
    PackOneFile(New(), n, data);
    HealthyLoad(w, New());
    HealthyMerge(w, New());
  }

  /** Materialising a state of two differently named files into a directory
      that holds the second one succeeds, and creates exactly the first. */
  lemma MaterializeAddsOtherKeys(n: string, x: Bytes, m: string, y: Bytes)
    requires n != m
    ensures var u := Materialize(Library({(n, x), (m, y)}), Dir(map[Utf8(m) := Regular(y, true)], true, {}));
      && u.status.Done?
      && u.dir.entries.Keys == {Utf8(m), Utf8(n)}
      && u.dir.listable && u.dir.faults == {}
  {
    var lib := Library({(n, x), (m, y)});
    var d := Dir(map[Utf8(m) := Regular(y, true)], true, {});
    NamesOfPair(n, x, m, y);
    assert Materialize(lib, d).status.Done?;
    MaterializeCreatesExactlyMissing(lib, d);
    PathsOfPair(Names(lib), n, m);
  }

  lemma PathsOfPair(s: set<string>, n: string, m: string)
    requires s == {n, m}
    ensures (set k | k in s :: Utf8(k)) == {Utf8(n), Utf8(m)}
  {
    assert Utf8(n) in (set k | k in s :: Utf8(k));
    assert Utf8(m) in (set k | k in s :: Utf8(k));
  }

  /** The file it creates holds the first entry's contents, read-only. */
  lemma MaterializeAddsOtherValues(n: string, x: Bytes, m: string, y: Bytes)
    requires n != m
    ensures var u := Materialize(Library({(n, x), (m, y)}), Dir(map[Utf8(m) := Regular(y, true)], true, {}));
      && Utf8(n) in u.dir.entries && u.dir.entries[Utf8(n)] == Regular(x, true)
      && Utf8(m) in u.dir.entries && u.dir.entries[Utf8(m)] == Regular(y, true)
  {
    var lib := Library({(n, x), (m, y)});
    var d := Dir(map[Utf8(m) := Regular(y, true)], true, {});
    var u := Materialize(lib, d);
    assert (n, x) in lib.entries && Utf8(n) !in d.entries;
    assert u.status.Done?;
    var e := u.dir.entries[Utf8(n)];
    assert (n, e.data) in lib.entries;
  }

  /** Together: the directory holds both files, read-only. */
  lemma MaterializeAddsOther(n: string, x: Bytes, m: string, y: Bytes)
    requires n != m
    ensures Materialize(Library({(n, x), (m, y)}), Dir(map[Utf8(m) := Regular(y, true)], true, {})) ==
      Written(Dir(map[Utf8(m) := Regular(y, true), Utf8(n) := Regular(x, true)], true, {}), Done)
  {
    MaterializeAddsOtherKeys(n, x, m, y);
    MaterializeAddsOtherValues(n, x, m, y);
    var u := Materialize(Library({(n, x), (m, y)}), Dir(map[Utf8(m) := Regular(y, true)], true, {}));
    assert u.dir.entries == map[Utf8(m) := Regular(y, true), Utf8(n) := Regular(x, true)];
  }

  /** The second replica to sync, holding file `m`, pulls the first one's
      published file `n` and ends with both on disk and in its state. */
  lemma SecondReplicaGetsBoth(n: string, x: Bytes, m: string, y: Bytes)
    requires n != m
    ensures var b := Sync.Sync(MaterializingVersion, Replica(m, y, Holds(Encode(Library({(n, x)})))));
      && b.progress.Running?
      && b.local == Library({(n, x), (m, y)})
      && b.world.dir.entries == map[Utf8(m) := Regular(y, true), Utf8(n) := Regular(x, true)]
  {
    var w := Replica(m, y, Holds(Encode(Library({(n, x)}))));
    var r := Merged(w);
    ReplicaMerged(m, y, Library({(n, x)}));
    MergeOfSingletons(m, y, n, x);
    assert r.world.dir == Dir(map[Utf8(m) := Regular(y, true)], true, {});
    MaterializeAddsOther(n, x, m, y);
    assert UnpackStep(MaterializingVersion, r).world.dir == Materialize(r.local, r.world.dir).dir;
    ReplicaSync(m, y, Holds(Encode(Library({(n, x)}))));
    UnpackPrecedesPersist(MaterializingVersion, w);
  }

  /** The two-replica `notes.txt`/`diary.txt` exchange: A, holding
      "notes.txt", syncs and publishes it; B, holding "diary.txt", then syncs
      and ends with both files on disk, read-only, and both in its durable
      state. */
  lemma TwoReplicasExchangeFiles()
    ensures var a := Sync.Sync(MaterializingVersion, Replica("notes.txt", Hello, Absent));
      && a.progress.Running?
      && a.world.remote == Holds(Encode(Library({("notes.txt", Hello)})))
    ensures var a := Sync.Sync(MaterializingVersion, Replica("notes.txt", Hello, Absent));
      var b := Sync.Sync(MaterializingVersion, Replica("diary.txt", WorldText, a.world.remote));
      && b.progress.Running?
      && b.world.durable == Holds(Encode(Library({("notes.txt", Hello), ("diary.txt", WorldText)})))
      && b.world.dir.entries == map[Utf8("diary.txt") := Regular(WorldText, true), Utf8("notes.txt") := Regular(Hello, true)]
  {
    ReplicaSync("notes.txt", Hello, Absent);
    assert Crdt.Merge(Library({("notes.txt", Hello)}), New()) == Library({("notes.txt", Hello)});
    assert "notes.txt" != "diary.txt" by { assert "notes.txt"[0] != "diary.txt"[0]; }
    SecondReplicaGetsBoth("notes.txt", Hello, "diary.txt", WorldText);
  }

  /** A state of one entry is enumerated as that entry alone. */
  lemma InOrderSingleton(e: Entry)
    ensures InOrder(Library({e})) == [e]
  {
    var r := InOrder(Library({e}));
    assert |r| == 1 && r[0] in Library({e}).entries;
  }

  /** `unpack` as written, on a directory holding the state's one file
      read-only, is refused. */
  lemma UnpackOntoReadOnly(n: string, data: Bytes)
    ensures var d := Dir(map[Utf8(n) := Regular(data, true)], true, {});
      Unpacking.Unpack(Library({(n, data)}), d) == Written(d, Failed(PermissionDenied(n)))
  {
    InOrderSingleton((n, data));
  }

  /** With `unpack` as written, a replica's very first sync is refused by the
      file it has just captured, and nothing is persisted or published. */
  lemma AsWrittenFirstSyncHalts(n: string, data: Bytes)
    ensures var a := Sync.Sync(MagpieVersion, Replica(n, data, Absent));
      && a.progress == Halted(Unpack, PermissionDenied(n))
      && a.world.durable == Holds(Encode(New()))
      && a.world.remote == Absent
  {
    var w := Replica(n, data, Absent);
    OneFileNames(n, data);
    assert Healthy(w, New());
    PackOneFile(New(), n, data);
    HealthyLoad(w, New());
    HealthyMerge(w, New());
    var m := Merged(w);
    assert m.local == Library({(n, data)});
    assert m.world.dir == Dir(map[Utf8(n) := Regular(data, true)], true, {});
    UnpackOntoReadOnly(n, data);
    assert UnpackStep(MagpieVersion, m).progress == Halted(Unpack, PermissionDenied(n));
  }

  /** The first sync of replica A in the `notes.txt`/`diary.txt` exchange,
      with `unpack` as written. */
  lemma AsWrittenExampleHalts()
    ensures Sync.Sync(MagpieVersion, Replica("notes.txt", Hello, Absent)).progress
      == Halted(Unpack, PermissionDenied("notes.txt"))
  {
    AsWrittenFirstSyncHalts("notes.txt", Hello);
  }

  /** Materialising entries all named after a file already present changes
      nothing. */
  lemma MaterializeKeepsExisting(n: string, x: Bytes, y: Bytes)
    ensures var d := Dir(map[Utf8(n) := Regular(y, true)], true, {});
      Materialize(Library({(n, x), (n, y)}), d) == Written(d, Done)
  {
    var lib := Library({(n, x), (n, y)});
    var d := Dir(map[Utf8(n) := Regular(y, true)], true, {});
    NamesOfPair(n, x, n, y);
    assert Materialize(lib, d).status.Done?;
    MaterializeCreatesExactlyMissing(lib, d);
    PathsOfPair(Names(lib), n, n);
    assert Materialize(lib, d).dir.entries == d.entries;
  }

  /** A replica holding its own file `n` pulls another replica's different
      contents for `n`: its state keeps both pairs, its file is left as it was
      apart from becoming read-only. */
  lemma SecondReplicaKeepsOwnFile(n: string, x: Bytes, y: Bytes)
    ensures var b := Sync.Sync(MaterializingVersion, Replica(n, y, Holds(Encode(Library({(n, x)})))));
      && b.progress.Running?
      && b.local == Library({(n, x), (n, y)})
      && b.world.dir.entries == map[Utf8(n) := Regular(y, true)]
  {
    var w := Replica(n, y, Holds(Encode(Library({(n, x)}))));
    var r := Merged(w);
    ReplicaMerged(n, y, Library({(n, x)}));
    MergeOfSingletons(n, y, n, x);
    MaterializeKeepsExisting(n, x, y);
    HealthyPublish(UnpackStep(MaterializingVersion, r));
  }

  /** Two replicas capturing different contents under one name: after A and
      then B sync, B's state holds both pairs, so names are no longer unique,
      while B's working directory keeps its own file. */
  lemma ConflictingFilesConvergeInStateOnly(n: string, x: Bytes, y: Bytes)
    requires x != y
    ensures var a := Sync.Sync(MaterializingVersion, Replica(n, x, Absent));
      var b := Sync.Sync(MaterializingVersion, Replica(n, y, a.world.remote));
      && b.progress.Running?
      && (n, x) in b.local.entries && (n, y) in b.local.entries
      && !NamesUnique(b.local)
      && b.world.dir.entries == map[Utf8(n) := Regular(y, true)]
  {
    ReplicaSync(n, x, Absent);
    assert Crdt.Merge(Library({(n, x)}), New()) == Library({(n, x)});
    SecondReplicaKeepsOwnFile(n, x, y);
    MergeKeepsConflictingPairs(n, x, y);
    assert Crdt.Merge(Library({(n, x)}), Library({(n, y)})) == Library({(n, x), (n, y)});
  }
}
