/** `unpack` (src/library.rs): writing every entry of the library back into
    the working directory as a read-only file, and `Materialize`, a variant
    that skips paths that already exist.  It is the only form of `unpack`
    under which `sync` can reach persist once `pack` has made the captured
    files read-only (src/library.rs:71-73); see README, Findings. */
module Unpacking {
  import opened Crdt
  import opened Errors
  import opened WorkDir

  /** What writing into the directory leaves behind. */
  datatype Written = Written(dir: Dir, status: Status)

  /** `File::create` can open the path for writing: nothing is there, or a
      regular file that is not read-only. */
  predicate CanCreate(d: Dir, n: string) {
    Utf8(n) !in d.entries || !Protected(d, Utf8(n))
  }

  /** The environment lets the create, the write and the permission change succeed. */
  predicate CanWrite(d: Dir, n: string) {
    (n, Create) !in d.faults && (n, Write) !in d.faults && (n, SetReadOnly) !in d.faults
  }

  /** One iteration of `unpack`'s loop: `File::create`, `write_all`, then mark
      the file read-only.  A failed write leaves the created, truncated file;
      a failed permission change leaves the written, writable file. */
  function WriteFile(d: Dir, n: string, data: Bytes): (r: Written)
    ensures r.status.Done? <==> CanCreate(d, n) && CanWrite(d, n)
    ensures r.status.Done? ==> r.dir == Put(d, n, Regular(data, true))
    ensures r.status.Failed? ==> r.status.error.Concerns(n)
    ensures !CanCreate(d, n) ==> r.dir == d
    ensures Touches(d, r.dir, {n})
  {
    var k := Utf8(n);
    if (n, Create) in d.faults then Written(d, Failed(Io(n, Create)))
    else if k in d.entries && d.entries[k].Other? then Written(d, Failed(NotAFile(n)))
    else if k in d.entries && d.entries[k].readonly then Written(d, Failed(PermissionDenied(n)))
    else if (n, Write) in d.faults then Written(Put(d, n, Regular([], false)), Failed(Io(n, Write)))
    else if (n, SetReadOnly) in d.faults then Written(Put(d, n, Regular(data, false)), Failed(Io(n, SetReadOnly)))
    else Written(Put(d, n, Regular(data, true)), Done)
  }

  /** The names of a sequence of entries. */
  function NamesOf(es: seq<Entry>): set<string> {
    set i | 0 <= i < |es| :: es[i].0
  }

  /** `unpack`'s loop: write each entry in turn, stopping at the first error. */
  function UnpackEach(es: seq<Entry>, d: Dir): Written
  {
    if es == [] then Written(d, Done)
    else
      var w := WriteFile(d, es[0].0, es[0].1);
      if w.status.Failed? then w else UnpackEach(es[1..], w.dir)
  }

  lemma {:induction false} NamesOfCons(es: seq<Entry>)
    requires es != []
    ensures NamesOf(es) == {es[0].0} + NamesOf(es[1..])
  {
    forall i | 0 <= i < |es[1..]| ensures es[1..][i].0 in NamesOf(es) {
      assert es[1..][i] == es[i + 1];
    }
    forall i | 0 <= i < |es| ensures es[i].0 in {es[0].0} + NamesOf(es[1..]) {
      if i > 0 {
        assert es[i] == es[1..][i - 1];
      }
    }
  }

  /** The loop touches only the entries' paths and never changes a read-only
      file or a non-file. */
  lemma {:induction false} UnpackEachFrame(es: seq<Entry>, d: Dir)
    ensures Touches(d, UnpackEach(es, d).dir, NamesOf(es))
    ensures forall k :: k in d.entries && Protected(d, k) ==> UnpackEach(es, d).dir.entries[k] == d.entries[k]
  {
    if es != [] {
      var w := WriteFile(d, es[0].0, es[0].1);
      NamesOfCons(es);
      if w.status.Done? {
        UnpackEachFrame(es[1..], w.dir);
      }
    }
  }

  lemma {:induction false} UnpackEachSucceedsIff(es: seq<Entry>, d: Dir)
    ensures UnpackEach(es, d).status.Done? <==>
      && (forall i, j :: 0 <= i < j < |es| ==> es[i].0 != es[j].0)
      && (forall i :: 0 <= i < |es| ==> CanCreate(d, es[i].0) && CanWrite(d, es[i].0))
  {
    if es != [] {
      var n := es[0].0;
      var w := WriteFile(d, n, es[0].1);
      if w.status.Done? {
        var rest := es[1..];
        UnpackEachSucceedsIff(rest, w.dir);
        assert forall i :: 1 <= i < |es| ==> es[i] == rest[i - 1];
        // Each later entry meets the freshly written, read-only file only if
        // it has the same name.
        assert forall m :: CanCreate(w.dir, m) <==> m != n && CanCreate(d, m);
      }
    }
  }

  lemma {:induction false} UnpackEachWrites(es: seq<Entry>, d: Dir)
    requires UnpackEach(es, d).status.Done?
    ensures forall i :: 0 <= i < |es| ==>
      Utf8(es[i].0) in UnpackEach(es, d).dir.entries && UnpackEach(es, d).dir.entries[Utf8(es[i].0)] == Regular(es[i].1, true)
  {
    if es != [] {
      var n := es[0].0;
      var w := WriteFile(d, n, es[0].1);
      var rest := es[1..];
      UnpackEachWrites(rest, w.dir);
      UnpackEachFrame(rest, w.dir);
      assert Protected(w.dir, Utf8(n));
      forall i | 1 <= i < |es| ensures Utf8(es[i].0) in UnpackEach(es, d).dir.entries && UnpackEach(es, d).dir.entries[Utf8(es[i].0)] == Regular(es[i].1, true) {
        assert es[i] == rest[i - 1];
      }
    }
  }

  /** `unpack`: write every entry of the library, in `BTreeSet` order, with
      `File::create` and no existence check. */
  function Unpack(lib: Library, d: Dir): (r: Written)
    // It succeeds exactly when no two entries share a name, every target can
    // be created, and the environment lets every write through.
    ensures r.status.Done? <==>
      NamesUnique(lib) && forall e :: e in lib.entries ==> CanCreate(d, e.0) && CanWrite(d, e.0)
    // On success every entry is on disk, with its contents, read-only.
    ensures r.status.Done? ==> forall e :: e in lib.entries ==>
      Utf8(e.0) in r.dir.entries && r.dir.entries[Utf8(e.0)] == Regular(e.1, true)
    // Only the library's names are touched, and read-only files and
    // non-files never change: creating them fails instead.
    ensures Touches(d, r.dir, Names(lib))
    ensures forall k :: k in d.entries && Protected(d, k) ==> r.dir.entries[k] == d.entries[k]
  {
    var es := InOrder(lib);
    UnpackEachFrame(es, d);
    UnpackEachSucceedsIff(es, d);
    if UnpackEach(es, d).status.Done? then
      UnpackEachWrites(es, d);
      UnpackInOrder(lib, es, d);
      UnpackEach(es, d)
    else
      UnpackInOrder(lib, es, d);
      UnpackEach(es, d)
  }

  /** Facts about an enumeration of the library, stated on the library. */
  lemma UnpackInOrder(lib: Library, es: seq<Entry>, d: Dir)
    requires forall e :: e in lib.entries <==> e in es
    requires forall i, j :: 0 <= i < j < |es| ==> es[i] != es[j]
    ensures NamesOf(es) == Names(lib)
    ensures (forall i, j :: 0 <= i < j < |es| ==> es[i].0 != es[j].0) <==> NamesUnique(lib)
    ensures (forall i :: 0 <= i < |es| ==> CanCreate(d, es[i].0) && CanWrite(d, es[i].0)) <==>
      forall e :: e in lib.entries ==> CanCreate(d, e.0) && CanWrite(d, e.0)
  {
    forall n | n in Names(lib) ensures n in NamesOf(es) {
      var e :| e in lib.entries && e.0 == n;
      var i :| 0 <= i < |es| && es[i] == e;
    }
    forall n | n in NamesOf(es) ensures n in Names(lib) {
      var i :| 0 <= i < |es| && es[i].0 == n;
      assert es[i] in lib.entries;
    }
    if forall i, j :: 0 <= i < j < |es| ==> es[i].0 != es[j].0 {
      forall e, e' | e in lib.entries && e' in lib.entries && e.0 == e'.0 ensures e == e' {
        var i :| 0 <= i < |es| && es[i] == e;
        var j :| 0 <= j < |es| && es[j] == e';
      }
    }
    if NamesUnique(lib) {
      forall i, j | 0 <= i < j < |es| ensures es[i].0 != es[j].0 {
        assert es[i] in lib.entries && es[j] in lib.entries;
      }
    }
    if forall e :: e in lib.entries ==> CanCreate(d, e.0) && CanWrite(d, e.0) {
      forall i | 0 <= i < |es| ensures CanCreate(d, es[i].0) && CanWrite(d, es[i].0) {
        assert es[i] in lib.entries;
      }
    }
  }

  /** The position of the entry at which the loop failed. */
  function FailedAt(es: seq<Entry>, d: Dir): (i: nat)
    requires UnpackEach(es, d).status.Failed?
    ensures i < |es|
  {
    var w := WriteFile(d, es[0].0, es[0].1);
    if w.status.Failed? then 0 else 1 + FailedAt(es[1..], w.dir)
  }

  lemma {:induction false} FailedAtConcerns(es: seq<Entry>, d: Dir)
    requires UnpackEach(es, d).status.Failed?
    ensures UnpackEach(es, d).status.error.Concerns(es[FailedAt(es, d)].0)
  {
    var w := WriteFile(d, es[0].0, es[0].1);
    if w.status.Done? {
      FailedAtConcerns(es[1..], w.dir);
    }
  }

  lemma {:induction false} FailedAtWritesBefore(es: seq<Entry>, d: Dir)
    requires UnpackEach(es, d).status.Failed?
    ensures forall j :: 0 <= j < FailedAt(es, d) ==>
      Utf8(es[j].0) in UnpackEach(es, d).dir.entries && UnpackEach(es, d).dir.entries[Utf8(es[j].0)] == Regular(es[j].1, true)
  {
    var n := es[0].0;
    var w := WriteFile(d, n, es[0].1);
    if w.status.Done? {
      var rest := es[1..];
      var r := UnpackEach(rest, w.dir);
      FailedAtWritesBefore(rest, w.dir);
      assert Utf8(n) in r.dir.entries && r.dir.entries[Utf8(n)] == Regular(es[0].1, true) by {
        UnpackEachFrame(rest, w.dir);
        assert Protected(w.dir, Utf8(n));
      }
      forall j | 1 <= j < FailedAt(es, d) ensures Utf8(es[j].0) in r.dir.entries && r.dir.entries[Utf8(es[j].0)] == Regular(es[j].1, true) {
        assert es[j] == rest[j - 1];
      }
    }
  }

  lemma {:induction false} FailedAtReason(es: seq<Entry>, d: Dir)
    requires UnpackEach(es, d).status.Failed?
    ensures var i := FailedAt(es, d);
      !CanCreate(d, es[i].0) || !CanWrite(d, es[i].0) || es[i].0 in NamesOf(es[..i])
  {
    var n := es[0].0;
    var w := WriteFile(d, n, es[0].1);
    if w.status.Done? {
      var rest := es[1..];
      var k := FailedAt(rest, w.dir);
      var i := k + 1;
      FailedAtReason(rest, w.dir);
      assert es[i] == rest[k];
      assert es[..i][1..] == rest[..k];
      NamesOfCons(es[..i]);
      // A later entry meets the freshly written, read-only file only if it
      // has the same name.
      assert CanCreate(w.dir, es[i].0) <==> es[i].0 != n && CanCreate(d, es[i].0);
    }
  }

  lemma {:induction false} FailedAtTouches(es: seq<Entry>, d: Dir)
    requires UnpackEach(es, d).status.Failed?
    ensures Touches(d, UnpackEach(es, d).dir, NamesOf(es[..FailedAt(es, d) + 1]))
  {
    var n := es[0].0;
    var w := WriteFile(d, n, es[0].1);
    if w.status.Failed? {
      assert UnpackEach(es, d) == w && FailedAt(es, d) == 0;
      NamesOfFirst(es);
    } else {
      FailedAtTouches(es[1..], w.dir);
      TouchesAfterFirstWrite(es, d, w);
    }
  }

  lemma NamesOfFirst(es: seq<Entry>)
    requires es != []
    ensures NamesOf(es[..1]) == {es[0].0}
  {
    assert es[..1][0] == es[0];
  }

  /** The step of `FailedAtTouches` past a successful first write. */
  lemma TouchesAfterFirstWrite(es: seq<Entry>, d: Dir, w: Written)
    requires UnpackEach(es, d).status.Failed?
    requires w == WriteFile(d, es[0].0, es[0].1) && w.status.Done?
    requires Touches(w.dir, UnpackEach(es[1..], w.dir).dir, NamesOf(es[1..][..FailedAt(es[1..], w.dir) + 1]))
    ensures Touches(d, UnpackEach(es, d).dir, NamesOf(es[..FailedAt(es, d) + 1]))
  {
    var rest := es[1..];
    var k := FailedAt(rest, w.dir);
    var a := NamesOf(rest[..k + 1]);
    var r := UnpackEach(rest, w.dir).dir;
    assert FailedAt(es, d) == k + 1 && UnpackEach(es, d).dir == r;
    TouchesTransitive(d, w.dir, r, {es[0].0}, a);
    assert NamesOf(es[..k + 2]) == {es[0].0} + a by {
      assert es[..k + 2][1..] == rest[..k + 1];
      NamesOfCons(es[..k + 2]);
    }
  }

  /** On an error the loop stopped at entry `i`: the error names it, it
      could not be created or written, or an earlier entry had already
      written its path read-only; every earlier entry is on disk, and no
      later entry's path was touched. */
  lemma UnpackEachStopsAtFirstFailure(es: seq<Entry>, d: Dir) returns (i: nat)
    requires UnpackEach(es, d).status.Failed?
    ensures i < |es| && UnpackEach(es, d).status.error.Concerns(es[i].0)
    ensures !CanCreate(d, es[i].0) || !CanWrite(d, es[i].0) || es[i].0 in NamesOf(es[..i])
    ensures forall j :: 0 <= j < i ==>
      Utf8(es[j].0) in UnpackEach(es, d).dir.entries && UnpackEach(es, d).dir.entries[Utf8(es[j].0)] == Regular(es[j].1, true)
    ensures Touches(d, UnpackEach(es, d).dir, NamesOf(es[..i + 1]))
  {
    i := FailedAt(es, d);
    FailedAtConcerns(es, d);
    FailedAtReason(es, d);
    FailedAtWritesBefore(es, d);
    FailedAtTouches(es, d);
  }

  /** The names of the entries up to and including `e`, in entry order. */
  function NamesUpTo(lib: Library, e: Entry): set<string> {
    set e' | e' in lib.entries && (EntryLess(e', e) || e' == e) :: e'.0
  }

  /** The names before and at position `i` of an ascending enumeration are
      the names of entries up to `es[i]`. */
  lemma EarlierNamesInOrder(lib: Library, es: seq<Entry>, i: nat)
    requires forall e :: e in lib.entries <==> e in es
    requires forall i, j :: 0 <= i < j < |es| ==> EntryLess(es[i], es[j]) && es[i] != es[j]
    requires i < |es|
    ensures NamesOf(es[..i + 1]) <= NamesUpTo(lib, es[i])
    ensures es[i].0 in NamesOf(es[..i]) ==> exists e' :: e' in lib.entries && EntryLess(e', es[i]) && e'.0 == es[i].0
  {
    if es[i].0 in NamesOf(es[..i]) {
      var j :| 0 <= j < i && es[..i][j].0 == es[i].0;
      assert es[j] in lib.entries && EntryLess(es[j], es[i]);
    }
    forall m | m in NamesOf(es[..i + 1]) ensures m in NamesUpTo(lib, es[i]) {
      var j :| 0 <= j < i + 1 && es[..i + 1][j].0 == m;
      assert es[j] in lib.entries && (EntryLess(es[j], es[i]) || es[j] == es[i]);
    }
  }

  /** `UnpackEachStopsAtFirstFailure` for an ascending enumeration of a
      library, with positions replaced by the entry order. */
  lemma UnpackEachStopsInOrder(lib: Library, es: seq<Entry>, d: Dir) returns (e: Entry)
    requires forall e :: e in lib.entries <==> e in es
    requires forall i, j :: 0 <= i < j < |es| ==> EntryLess(es[i], es[j]) && es[i] != es[j]
    requires UnpackEach(es, d).status.Failed?
    ensures e in lib.entries && UnpackEach(es, d).status.error.Concerns(e.0)
    ensures !CanCreate(d, e.0) || !CanWrite(d, e.0) ||
      exists e' :: e' in lib.entries && EntryLess(e', e) && e'.0 == e.0
    ensures forall e' :: e' in lib.entries && EntryLess(e', e) ==>
      Utf8(e'.0) in UnpackEach(es, d).dir.entries && UnpackEach(es, d).dir.entries[Utf8(e'.0)] == Regular(e'.1, true)
    ensures Touches(d, UnpackEach(es, d).dir, NamesUpTo(lib, e))
  {
    var i := UnpackEachStopsAtFirstFailure(es, d);
    e := es[i];
    assert e in es;
    forall e' | e' in lib.entries && EntryLess(e', e)
      ensures Utf8(e'.0) in UnpackEach(es, d).dir.entries && UnpackEach(es, d).dir.entries[Utf8(e'.0)] == Regular(e'.1, true)
    {
      var j :| 0 <= j < |es| && es[j] == e';
      EntryLessAsymmetric(e', e);
      assert j < i;
    }
    EarlierNamesInOrder(lib, es, i);
    TouchesWiden(d, UnpackEach(es, d).dir, NamesOf(es[..i + 1]), NamesUpTo(lib, e));
  }

  /** On an error, `unpack` stops at the failing entry: it could not be
      created or written, or an entry before it in `BTreeSet` order had the
      same name and already wrote that path read-only.  The entries before it
      are on disk and stay there, and no path after it is touched. */
  lemma UnpackStopsAtFirstFailure(lib: Library, d: Dir) returns (e: Entry)
    requires Unpack(lib, d).status.Failed?
    ensures e in lib.entries && Unpack(lib, d).status.error.Concerns(e.0)
    ensures !CanCreate(d, e.0) || !CanWrite(d, e.0) ||
      exists e' :: e' in lib.entries && EntryLess(e', e) && e'.0 == e.0
    ensures forall e' :: e' in lib.entries && EntryLess(e', e) ==>
      Utf8(e'.0) in Unpack(lib, d).dir.entries && Unpack(lib, d).dir.entries[Utf8(e'.0)] == Regular(e'.1, true)
    ensures Touches(d, Unpack(lib, d).dir, NamesUpTo(lib, e))
  {
    var es := InOrder(lib);
    assert Unpack(lib, d) == UnpackEach(es, d);
    e := UnpackEachStopsInOrder(lib, es, d);
  }

  /** The materialising loop: like `unpack`'s, but an entry whose path already
      exists is skipped. */
  function MaterializeEach(es: seq<Entry>, d: Dir): Written
  {
    if es == [] then Written(d, Done)
    else if Utf8(es[0].0) in d.entries then MaterializeEach(es[1..], d)
    else
      var w := WriteFile(d, es[0].0, es[0].1);
      if w.status.Failed? then w else MaterializeEach(es[1..], w.dir)
  }

  lemma {:induction false} MaterializeEachFrame(es: seq<Entry>, d: Dir)
    ensures Touches(d, MaterializeEach(es, d).dir, NamesOf(es))
    ensures forall k :: k in d.entries ==> MaterializeEach(es, d).dir.entries[k] == d.entries[k]
  {
    if es != [] {
      NamesOfCons(es);
      if Utf8(es[0].0) in d.entries {
        MaterializeEachFrame(es[1..], d);
      } else {
        var w := WriteFile(d, es[0].0, es[0].1);
        if w.status.Done? {
          MaterializeEachFrame(es[1..], w.dir);
        }
      }
    }
  }

  lemma {:induction false} MaterializeEachSucceedsIff(es: seq<Entry>, d: Dir)
    ensures MaterializeEach(es, d).status.Done? <==>
      forall i :: 0 <= i < |es| && Utf8(es[i].0) !in d.entries ==> CanWrite(d, es[i].0)
  {
    if es != [] {
      var n := es[0].0;
      var rest := es[1..];
      assert forall i :: 1 <= i < |es| ==> es[i] == rest[i - 1];
      if Utf8(n) in d.entries {
        MaterializeEachSucceedsIff(rest, d);
      } else {
        var w := WriteFile(d, n, es[0].1);
        if w.status.Done? {
          MaterializeEachSucceedsIff(rest, w.dir);
        }
      }
    }
  }

  lemma {:induction false} MaterializeEachWrites(es: seq<Entry>, d: Dir)
    requires MaterializeEach(es, d).status.Done?
    ensures var r := MaterializeEach(es, d);
      forall i :: 0 <= i < |es| ==>
        && Utf8(es[i].0) in r.dir.entries
        && (Utf8(es[i].0) !in d.entries ==>
              r.dir.entries[Utf8(es[i].0)].Regular?
              && r.dir.entries[Utf8(es[i].0)].readonly
              && (es[i].0, r.dir.entries[Utf8(es[i].0)].data) in es)
  {
    if es != [] {
      var n := es[0].0;
      var rest := es[1..];
      var r := MaterializeEach(es, d);
      var d' := if Utf8(n) in d.entries then d else WriteFile(d, n, es[0].1).dir;
      assert r == MaterializeEach(rest, d');
      MaterializeEachWrites(rest, d');
      MaterializeEachFrame(rest, d');
      forall i | 0 <= i < |es|
        ensures Utf8(es[i].0) in r.dir.entries
        ensures Utf8(es[i].0) !in d.entries ==>
          r.dir.entries[Utf8(es[i].0)].Regular?
          && r.dir.entries[Utf8(es[i].0)].readonly
          && (es[i].0, r.dir.entries[Utf8(es[i].0)].data) in es
      {
        if i > 0 {
          assert es[i] == rest[i - 1];
          if Utf8(es[i].0) in d'.entries && Utf8(es[i].0) !in d.entries {
            assert es[i].0 == n;
            assert es[0] in es;
          }
        }
      }
    }
  }

  /** The materialising variant of `unpack`: write every entry of the library
      whose path does not exist yet, in `BTreeSet` order. */
  function Materialize(lib: Library, d: Dir): (r: Written)
    // It never overwrites: whatever was in the directory stays as it was.
    ensures forall k :: k in d.entries ==> k in r.dir.entries && r.dir.entries[k] == d.entries[k]
    ensures Touches(d, r.dir, Names(lib))
    // It succeeds exactly when the environment lets every missing file be written.
    ensures r.status.Done? <==>
      forall e :: e in lib.entries && Utf8(e.0) !in d.entries ==> CanWrite(d, e.0)
    // On success every name of the library exists; each new file is
    // read-only and holds the contents of one of the library's entries of
    // that name.
    ensures r.status.Done? ==> forall e :: e in lib.entries ==> Utf8(e.0) in r.dir.entries
    ensures r.status.Done? ==> forall e :: e in lib.entries && Utf8(e.0) !in d.entries ==>
      && r.dir.entries[Utf8(e.0)].Regular?
      && r.dir.entries[Utf8(e.0)].readonly
      && (e.0, r.dir.entries[Utf8(e.0)].data) in lib.entries
  {
    var es := InOrder(lib);
    MaterializeInOrder(lib, es, d);
    MaterializeEach(es, d)
  }

  /** Facts about materialising an enumeration of the library, stated on the library. */
  lemma MaterializeInOrder(lib: Library, es: seq<Entry>, d: Dir)
    requires forall e :: e in lib.entries <==> e in es
    requires forall i, j :: 0 <= i < j < |es| ==> es[i] != es[j]
    ensures var r := MaterializeEach(es, d);
      && (forall k :: k in d.entries ==> k in r.dir.entries && r.dir.entries[k] == d.entries[k])
      && Touches(d, r.dir, Names(lib))
      && (r.status.Done? <==> forall e :: e in lib.entries && Utf8(e.0) !in d.entries ==> CanWrite(d, e.0))
      && (r.status.Done? ==> forall e :: e in lib.entries ==> Utf8(e.0) in r.dir.entries)
      && (r.status.Done? ==> forall e :: e in lib.entries && Utf8(e.0) !in d.entries ==>
            && r.dir.entries[Utf8(e.0)].Regular?
            && r.dir.entries[Utf8(e.0)].readonly
            && (e.0, r.dir.entries[Utf8(e.0)].data) in lib.entries)
  {
    var r := MaterializeEach(es, d);
    MaterializeEachFrame(es, d);
    MaterializeEachSucceedsIff(es, d);
    UnpackInOrder(lib, es, d);
    if forall i :: 0 <= i < |es| && Utf8(es[i].0) !in d.entries ==> CanWrite(d, es[i].0) {
      forall e | e in lib.entries && Utf8(e.0) !in d.entries ensures CanWrite(d, e.0) {
        var i :| 0 <= i < |es| && es[i] == e;
      }
    }
    if r.status.Done? {
      MaterializeEachWrites(es, d);
      forall e | e in lib.entries
        ensures Utf8(e.0) in r.dir.entries
        ensures Utf8(e.0) !in d.entries ==>
          && r.dir.entries[Utf8(e.0)].Regular?
          && r.dir.entries[Utf8(e.0)].readonly
          && (e.0, r.dir.entries[Utf8(e.0)].data) in lib.entries
      {
        var i :| 0 <= i < |es| && es[i] == e;
      }
    }
  }

  /** With names unique in the library, a successful materialisation writes
      each missing entry's own contents. */
  lemma MaterializeWritesUniqueEntries(lib: Library, d: Dir)
    requires NamesUnique(lib)
    requires Materialize(lib, d).status.Done?
    ensures forall e :: e in lib.entries && Utf8(e.0) !in d.entries ==>
      Materialize(lib, d).dir.entries[Utf8(e.0)] == Regular(e.1, true)
  {
  }

  /** A successful materialisation creates exactly the missing names: the
      directory ends with its old paths plus one per name of the library. */
  lemma MaterializeCreatesExactlyMissing(lib: Library, d: Dir)
    requires Materialize(lib, d).status.Done?
    ensures Materialize(lib, d).dir.entries.Keys == d.entries.Keys + set n | n in Names(lib) :: Utf8(n)
  {
    var r := Materialize(lib, d);
    forall k | k in r.dir.entries ensures k in d.entries || k in set n | n in Names(lib) :: Utf8(n) {
      if k !in d.entries {
        assert k == Utf8(k.name);
      }
    }
    forall n | n in Names(lib) ensures Utf8(n) in r.dir.entries {
      var e :| e in lib.entries && e.0 == n;
    }
  }
}
