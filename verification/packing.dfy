/** `pack` (src/library.rs): capturing the working directory's new files into
    the library. */
module Packing {
  import opened Order
  import opened Crdt
  import opened Errors
  import opened WorkDir

  /** What `pack` leaves behind: the library it mutated in place, the
      directory whose read-only bits it changed, and its result. */
  datatype Captured = Captured(lib: Library, dir: Dir, status: Status)

  /** The file names `pack` will capture: regular files not yet named in the
      library. */
  function NewFiles(lib: Library, d: Dir): set<string> {
    FileNames(d) - Names(lib)
  }

  /** Capturing one file can only fail through the environment. */
  predicate CanCapture(d: Dir, n: string) {
    (n, Read) !in d.faults && (n, SetReadOnly) !in d.faults
  }

  /** Marks the regular file `n` read-only. */
  function MarkReadOnly(d: Dir, n: string): (r: Dir)
    requires IsFile(d, n)
    ensures SameFiles(d, r)
    ensures r.entries[Utf8(n)] == Regular(FileData(d, n), true)
    ensures forall k :: k in d.entries && k != Utf8(n) ==> r.entries[k] == d.entries[k]
  {
    Put(d, n, Regular(FileData(d, n), true))
  }

  /** The second loop of `pack`: for each name in turn, read the file, insert
      the pair, and mark the file read-only, stopping at the first error. */
  function CaptureEach(names: seq<string>, lib: Library, d: Dir): (r: Captured)
    requires forall i :: 0 <= i < |names| ==> IsFile(d, names[i])
    ensures Below(lib, r.lib)
    ensures forall e :: e in r.lib.entries && e !in lib.entries ==>
      e.0 in names && IsFile(d, e.0) && e.1 == FileData(d, e.0)
    ensures r.status.Done? <==> forall i :: 0 <= i < |names| ==> CanCapture(d, names[i])
    ensures r.status.Done? ==> forall n :: n in names ==> (n, FileData(d, n)) in r.lib.entries
    decreases |names|
  {
    if names == [] then Captured(lib, d, Done)
    else
      var n := names[0];
      if (n, Read) in d.faults then Captured(lib, d, Failed(Io(n, Read)))
      else
        var lib' := Insert(lib, (n, FileData(d, n)));
        if (n, SetReadOnly) in d.faults then Captured(lib', d, Failed(Io(n, SetReadOnly)))
        else
          var d' := MarkReadOnly(d, n);
          SameFilesKeepsNames(d, d');
          var r := CaptureEach(names[1..], lib', d');
          assert forall m :: m in names[1..] ==> m in names;
          r
  }

  /** What capturing does to the directory: only read-only bits change, only
      those of the captured files, and on success every captured file is
      read-only. */
  lemma {:induction false} CaptureEachDir(names: seq<string>, lib: Library, d: Dir)
    requires forall i :: 0 <= i < |names| ==> IsFile(d, names[i])
    ensures var r := CaptureEach(names, lib, d);
      && SameFiles(d, r.dir)
      && (forall k :: k in d.entries && r.dir.entries[k] != d.entries[k] ==>
            k.Utf8? && k.name in names && r.dir.entries[k] == Regular(FileData(d, k.name), true))
      && (r.status.Done? ==> forall n :: n in names ==> IsFile(r.dir, n) && r.dir.entries[Utf8(n)].readonly)
    decreases |names|
  {
    if names != [] {
      var n := names[0];
      if (n, Read) !in d.faults && (n, SetReadOnly) !in d.faults {
        var lib' := Insert(lib, (n, FileData(d, n)));
        var d' := MarkReadOnly(d, n);
        SameFilesKeepsNames(d, d');
        var r := CaptureEach(names[1..], lib', d');
        assert CaptureEach(names, lib, d) == r;
        CaptureEachDir(names[1..], lib', d');
        SameFilesTransitive(d, d', r.dir);
        assert forall m :: m in names[1..] ==> m in names;
      }
    }
  }

  /** A library that grew by exactly the files `names`, with their contents. */
  lemma CapturedExactly(lib: Library, lib': Library, names: set<string>, d: Dir)
    requires forall n :: n in names ==> IsFile(d, n)
    requires Below(lib, lib')
    requires forall e :: e in lib'.entries && e !in lib.entries ==> e.0 in names && e.1 == FileData(d, e.0)
    requires forall n :: n in names ==> (n, FileData(d, n)) in lib'.entries
    ensures lib'.entries == lib.entries + set n | n in names :: (n, FileData(d, n))
  {
  }

  /** Capturing an enumeration of a set of files is capturing that set. */
  lemma CaptureInOrder(order: seq<string>, names: set<string>, lib: Library, d: Dir)
    requires forall n :: n in order <==> n in names
    requires forall i :: 0 <= i < |order| ==> IsFile(d, order[i])
    ensures var r := CaptureEach(order, lib, d);
      && (forall e :: e in r.lib.entries && e !in lib.entries ==> e.0 in names && e.1 == FileData(d, e.0))
      && (r.status.Done? <==> forall n :: n in names ==> CanCapture(d, n))
      && (r.status.Done? ==> r.lib.entries == lib.entries + set n | n in names :: (n, FileData(d, n)))
      && SameFiles(d, r.dir)
      && (forall k :: k in d.entries && r.dir.entries[k] != d.entries[k] ==>
            k.Utf8? && k.name in names && r.dir.entries[k] == Regular(FileData(d, k.name), true))
      && (r.status.Done? ==> forall n :: n in names ==> IsFile(r.dir, n) && r.dir.entries[Utf8(n)].readonly)
  {
    var r := CaptureEach(order, lib, d);
    CaptureEachDir(order, lib, d);
    assert forall n :: n in names ==> IsFile(d, n) by {
      forall n | n in names ensures IsFile(d, n) {
        var i :| 0 <= i < |order| && order[i] == n;
      }
    }
    assert (forall i :: 0 <= i < |order| ==> CanCapture(d, order[i])) <==> forall n :: n in names ==> CanCapture(d, n) by {
      if forall i :: 0 <= i < |order| ==> CanCapture(d, order[i]) {
        forall n | n in names ensures CanCapture(d, n) {
          var i :| 0 <= i < |order| && order[i] == n;
        }
      }
    }
    if r.status.Done? {
      CapturedExactly(lib, r.lib, names, d);
    }
  }

  /** The order in which `pack` captures: `BTreeSet::difference` yields the
      new names in ascending order. */
  function PackOrder(lib: Library, d: Dir): (r: seq<string>)
    ensures forall n :: n in r <==> n in NewFiles(lib, d)
    ensures forall i, j :: 0 <= i < j < |r| ==> NameLess(r[i], r[j]) && r[i] != r[j]
    ensures forall i :: 0 <= i < |r| ==> IsFile(d, r[i])
  {
    NameLessIsStrictTotal();
    var r := Sorted(NewFiles(lib, d), NameLess);
    AscendingIsDistinct(r, NameLess);
    assert forall i :: 0 <= i < |r| ==> IsFile(d, r[i]) by {
      forall i | 0 <= i < |r| ensures IsFile(d, r[i]) {
        assert r[i] in r;
        FileNamesAreFiles(d, r[i]);
      }
    }
    r
  }

  /** `pack`: list the directory, fail on a regular file whose name is not
      UTF-8, then capture every regular file whose name the library does not
      yet hold, in ascending name order. */
  function Pack(lib: Library, d: Dir): (r: Captured)
    // Grow-only: nothing already in the library is removed or changed.
    ensures Below(lib, r.lib)
    // Every added pair is a new regular file with its full contents.
    ensures forall e :: e in r.lib.entries && e !in lib.entries ==>
      e.0 in NewFiles(lib, d) && e.1 == FileData(d, e.0)
    ensures r.status.Done? <==>
      d.listable && !HasInvalidName(d) && forall n :: n in NewFiles(lib, d) ==> CanCapture(d, n)
    ensures r.status.Done? ==>
      r.lib.entries == lib.entries + set n | n in NewFiles(lib, d) :: (n, FileData(d, n))
    // Failures found while listing leave everything as it was.
    ensures !d.listable || HasInvalidName(d) ==> r.lib == lib && r.dir == d
    // Only read-only bits change, and only those of newly captured files.
    ensures SameFiles(d, r.dir)
    ensures forall k :: k in d.entries && r.dir.entries[k] != d.entries[k] ==>
      k.Utf8? && k.name in NewFiles(lib, d) && r.dir.entries[k] == Regular(FileData(d, k.name), true)
    ensures r.status.Done? ==> forall n :: n in NewFiles(lib, d) ==> IsFile(r.dir, n) && r.dir.entries[Utf8(n)].readonly
  {
    if !d.listable then Captured(lib, d, Failed(ListFailed))
    else if HasInvalidName(d) then Captured(lib, d, Failed(InvalidFileName))
    else
      var order := PackOrder(lib, d);
      CaptureInOrder(order, NewFiles(lib, d), lib, d);
      CaptureEach(order, lib, d)
  }

  /** After a successful `pack` every regular file of the directory is named
      in the library. */
  lemma PackCoversDirectory(lib: Library, d: Dir)
    requires Pack(lib, d).status.Done?
    ensures Names(Pack(lib, d).lib) == Names(lib) + FileNames(d)
  {
    NamesAfterCapture(lib, Pack(lib, d).lib, d);
  }

  /** The names of a library grown by exactly the directory's new files. */
  lemma NamesAfterCapture(lib: Library, lib': Library, d: Dir)
    requires lib'.entries == lib.entries + set n | n in NewFiles(lib, d) :: (n, FileData(d, n))
    ensures Names(lib') == Names(lib) + FileNames(d)
  {
    forall n | n in Names(lib) + FileNames(d) ensures n in Names(lib') {
      if n in NewFiles(lib, d) {
        FileNamesAreFiles(d, n);
        assert (n, FileData(d, n)) in lib'.entries;
      } else {
        var e :| e in lib.entries && e.0 == n;
        assert e in lib'.entries;
      }
    }
    forall n | n in Names(lib') ensures n in Names(lib) + FileNames(d) {
      var e :| e in lib'.entries && e.0 == n;
      if e !in lib.entries {
        assert n in NewFiles(lib, d);
      }
    }
  }

  /** After a successful `pack` each new file is read-only with its contents
      unchanged, and the directory holds the same paths. */
  lemma PackMarksNewFiles(lib: Library, d: Dir, n: string)
    requires Pack(lib, d).status.Done? && n in NewFiles(lib, d)
    ensures Pack(lib, d).dir.entries.Keys == d.entries.Keys
    ensures IsFile(d, n) && Pack(lib, d).dir.entries[Utf8(n)] == Regular(FileData(d, n), true)
  {
    FileNamesAreFiles(d, n);
  }

  /** `pack` is idempotent: run again over the directory it left behind, it
      adds nothing and changes nothing. */
  lemma PackIdempotent(lib: Library, d: Dir)
    requires Pack(lib, d).status.Done?
    ensures var r := Pack(lib, d); Pack(r.lib, r.dir) == Captured(r.lib, r.dir, Done)
  {
    var r := Pack(lib, d);
    SameFilesKeepsNames(d, r.dir);
    PackCoversDirectory(lib, d);
    assert NewFiles(r.lib, r.dir) == {};
    NameLessIsStrictTotal();
    assert Sorted(NewFiles(r.lib, r.dir), NameLess) == [];
  }

  /** Non-files are never captured, and one regular file whose name is not
      UTF-8 fails the whole call before anything changes. */
  lemma PackSkipsNonFilesAndRejectsInvalidNames(lib: Library, d: Dir)
    ensures forall n :: n in Names(Pack(lib, d).lib) - Names(lib) ==> IsFile(d, n)
    ensures d.listable && HasInvalidName(d) ==> Pack(lib, d) == Captured(lib, d, Failed(InvalidFileName))
  {
    var r := Pack(lib, d);
    forall n | n in Names(r.lib) - Names(lib) ensures IsFile(d, n) {
      var e :| e in r.lib.entries && e.0 == n;
      assert e !in lib.entries;
      FileNamesAreFiles(d, n);
    }
  }

  /** The file `n` has been captured: its pair is in the library and it is
      marked read-only. */
  predicate CapturedFile(r: Captured, d: Dir, n: string)
    requires IsFile(d, n)
  {
    (n, FileData(d, n)) in r.lib.entries && IsFile(r.dir, n) && r.dir.entries[Utf8(n)].readonly
  }

  /** The status is an I/O error on the file `n`. */
  predicate FailedOn(s: Status, n: string) {
    s.Failed? && s.error.Io? && s.error.name == n
  }

  /** `names[i]` is the first file the environment does not let through. */
  predicate FirstBlocked(names: seq<string>, d: Dir, i: nat) {
    i < |names| && !CanCapture(d, names[i]) && forall j :: 0 <= j < i ==> CanCapture(d, names[j])
  }

  /** A blocked file after a capturable first file is blocked in the whole
      sequence, one position later. */
  lemma FirstBlockedCons(names: seq<string>, d: Dir, d': Dir, k: nat)
    requires names != [] && CanCapture(d, names[0]) && d'.faults == d.faults
    requires FirstBlocked(names[1..], d', k)
    ensures FirstBlocked(names, d, k + 1)
  {
    assert names[1..][k] == names[k + 1];
    forall j | 0 <= j < k + 1 ensures CanCapture(d, names[j]) {
      if j > 0 {
        assert names[1..][j - 1] == names[j];
      }
    }
  }

  /** Conversely, a file blocked first after position 0 is blocked first in
      the rest of the sequence. */
  lemma FirstBlockedTail(names: seq<string>, d: Dir, d': Dir, i: nat)
    requires FirstBlocked(names, d, i) && i > 0 && d'.faults == d.faults
    ensures FirstBlocked(names[1..], d', i - 1)
  {
    assert names[1..][i - 1] == names[i];
    forall j | 0 <= j < i - 1 ensures CanCapture(d', names[1..][j]) {
      assert names[1..][j] == names[j + 1];
    }
  }

  /** A failing capture fails at the first blocked file, with an error on it. */
  lemma {:induction false} CaptureFailsAtFirstBlocked(names: seq<string>, lib: Library, d: Dir) returns (i: nat)
    requires forall i :: 0 <= i < |names| ==> IsFile(d, names[i])
    requires CaptureEach(names, lib, d).status.Failed?
    ensures FirstBlocked(names, d, i)
    ensures FailedOn(CaptureEach(names, lib, d).status, names[i])
    decreases |names|
  {
    var n := names[0];
    if (n, Read) in d.faults || (n, SetReadOnly) in d.faults {
      i := 0;
    } else {
      var lib' := Insert(lib, (n, FileData(d, n)));
      var d' := MarkReadOnly(d, n);
      SameFilesKeepsNames(d, d');
      assert CaptureEach(names, lib, d) == CaptureEach(names[1..], lib', d');
      var k := CaptureFailsAtFirstBlocked(names[1..], lib', d');
      FirstBlockedCons(names, d, d', k);
      i := k + 1;
      assert names[1..][k] == names[i];
    }
  }

  /** Every file before the first blocked one is captured. */
  lemma {:induction false} CaptureBeforeBlocked(names: seq<string>, lib: Library, d: Dir, i: nat)
    requires forall i :: 0 <= i < |names| ==> IsFile(d, names[i])
    requires forall i, j :: 0 <= i < j < |names| ==> names[i] != names[j]
    requires FirstBlocked(names, d, i)
    ensures forall j :: 0 <= j < i ==> CapturedFile(CaptureEach(names, lib, d), d, names[j])
    decreases |names|
  {
    if i > 0 {
      var r := CaptureEach(names, lib, d);
      var n := names[0];
      var lib' := Insert(lib, (n, FileData(d, n)));
      var d' := MarkReadOnly(d, n);
      SameFilesKeepsNames(d, d');
      assert r == CaptureEach(names[1..], lib', d');
      assert d'.faults == d.faults;
      FirstBlockedTail(names, d, d', i);
      CaptureBeforeBlocked(names[1..], lib', d', i - 1);
      assert CapturedFile(r, d, n) by {
        CaptureEachDir(names[1..], lib', d');
        assert n !in names[1..];
      }
      forall j | 1 <= j < i ensures CapturedFile(r, d, names[j]) {
        assert names[1..][j - 1] == names[j];
        assert CapturedFile(r, d', names[1..][j - 1]);
      }
    }
  }

  /** Nothing after the first blocked file is inserted. */
  lemma {:induction false} CaptureAfterBlocked(names: seq<string>, lib: Library, d: Dir, i: nat)
    requires forall i :: 0 <= i < |names| ==> IsFile(d, names[i])
    requires forall i, j :: 0 <= i < j < |names| ==> names[i] != names[j]
    requires FirstBlocked(names, d, i)
    ensures forall e, j :: e in CaptureEach(names, lib, d).lib.entries && e !in lib.entries && i < j < |names| ==>
      e.0 != names[j]
    decreases |names|
  {
    var r := CaptureEach(names, lib, d);
    var n := names[0];
    if i == 0 {
      assert r.lib.entries <= lib.entries + {(n, FileData(d, n))};
    } else {
      var lib' := Insert(lib, (n, FileData(d, n)));
      var d' := MarkReadOnly(d, n);
      SameFilesKeepsNames(d, d');
      assert r == CaptureEach(names[1..], lib', d');
      assert d'.faults == d.faults;
      FirstBlockedTail(names, d, d', i);
      CaptureAfterBlocked(names[1..], lib', d', i - 1);
      forall e, j | e in r.lib.entries && e !in lib.entries && i < j < |names| ensures e.0 != names[j] {
        assert names[1..][j - 1] == names[j];
      }
    }
  }

  /** On an error while capturing an enumeration of distinct files, the
      error is on the first file the environment blocks; the files before it
      were captured and nothing after it was inserted. */
  lemma CaptureStopsAtFirstFailure(names: seq<string>, lib: Library, d: Dir) returns (i: nat)
    requires forall i :: 0 <= i < |names| ==> IsFile(d, names[i])
    requires forall i, j :: 0 <= i < j < |names| ==> names[i] != names[j]
    requires CaptureEach(names, lib, d).status.Failed?
    ensures FirstBlocked(names, d, i)
    ensures FailedOn(CaptureEach(names, lib, d).status, names[i])
    ensures forall j :: 0 <= j < i ==> CapturedFile(CaptureEach(names, lib, d), d, names[j])
    ensures forall e, j :: e in CaptureEach(names, lib, d).lib.entries && e !in lib.entries && i < j < |names| ==>
      e.0 != names[j]
  {
    i := CaptureFailsAtFirstBlocked(names, lib, d);
    CaptureBeforeBlocked(names, lib, d, i);
    CaptureAfterBlocked(names, lib, d, i);
  }

  /** On an error while capturing, the files before the failing one in
      ascending name order were inserted and marked read-only, and nothing
      after it was inserted: earlier insertions are not rolled back. */
  lemma PackStopsAtFirstFailure(lib: Library, d: Dir) returns (n: string)
    requires d.listable && !HasInvalidName(d)
    requires Pack(lib, d).status.Failed?
    ensures n in NewFiles(lib, d) && IsFile(d, n) && !CanCapture(d, n)
    ensures FailedOn(Pack(lib, d).status, n)
    ensures forall m :: m in NewFiles(lib, d) && NameLess(m, n) ==>
      IsFile(d, m) && CanCapture(d, m) && CapturedFile(Pack(lib, d), d, m)
    ensures forall m :: m in NewFiles(lib, d) && NameLess(n, m) ==> m !in Names(Pack(lib, d).lib)
  {
    var order := PackOrder(lib, d);
    assert Pack(lib, d) == CaptureEach(order, lib, d);
    n := CaptureStopsInOrder(order, NewFiles(lib, d), lib, d);
  }

  /** `CaptureStopsAtFirstFailure` for an ascending enumeration of the new
      files, with positions replaced by name order. */
  lemma CaptureStopsInOrder(order: seq<string>, names: set<string>, lib: Library, d: Dir) returns (n: string)
    requires forall n :: n in order <==> n in names
    requires forall i, j :: 0 <= i < j < |order| ==> NameLess(order[i], order[j]) && order[i] != order[j]
    requires forall i :: 0 <= i < |order| ==> IsFile(d, order[i])
    requires forall n :: n in names ==> n !in Names(lib)
    requires CaptureEach(order, lib, d).status.Failed?
    ensures n in names && IsFile(d, n) && !CanCapture(d, n)
    ensures FailedOn(CaptureEach(order, lib, d).status, n)
    ensures forall m :: m in names && NameLess(m, n) ==>
      IsFile(d, m) && CanCapture(d, m) && CapturedFile(CaptureEach(order, lib, d), d, m)
    ensures forall m :: m in names && NameLess(n, m) ==> m !in Names(CaptureEach(order, lib, d).lib)
  {
    var r := CaptureEach(order, lib, d);
    var i := CaptureStopsAtFirstFailure(order, lib, d);
    n := order[i];
    assert n in order;
    NameLessAsymmetric(n, n);
    forall m | m in names && NameLess(m, n)
      ensures IsFile(d, m) && CanCapture(d, m) && CapturedFile(r, d, m)
    {
      var j :| 0 <= j < |order| && order[j] == m;
      NameLessAsymmetric(m, n);
      assert j < i;
    }
    forall m | m in names && NameLess(n, m) ensures m !in Names(r.lib) {
      var j :| 0 <= j < |order| && order[j] == m;
      NameLessAsymmetric(n, m);
      assert i < j;
      forall e | e in r.lib.entries ensures e.0 != m {
        if e in lib.entries {
          assert e.0 in Names(lib);
        }
      }
    }
  }
}
