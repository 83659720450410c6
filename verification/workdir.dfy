/** The working directory the library is captured from and unpacked into.
    Each entry carries a single read-only bit; the environment's I/O failures
    are part of the value, as the set of `(file name, operation)` pairs that
    fail. */
module WorkDir {
  import opened Crdt
  import opened Errors

  /** A directory entry's name as the operating system gives it: either it
      converts to a `String` or `into_string` rejects it. */
  datatype OsName = Utf8(name: string) | NotUtf8(raw: Bytes)

  /** A regular file with its contents and read-only bit, or any other kind of
      entry (a directory, a device, a socket). */
  datatype Node = Regular(data: Bytes, readonly: bool) | Other

  datatype Dir = Dir(entries: map<OsName, Node>, listable: bool, faults: set<(string, IoOp)>)

  /** The UTF-8 names of the directory's regular files. */
  function FileNames(d: Dir): set<string> {
    set k | k in d.entries && k.Utf8? && d.entries[k].Regular? :: k.name
  }

  predicate IsFile(d: Dir, n: string) {
    Utf8(n) in d.entries && d.entries[Utf8(n)].Regular?
  }

  lemma FileNamesAreFiles(d: Dir, n: string)
    ensures n in FileNames(d) <==> IsFile(d, n)
  {
    if IsFile(d, n) {
      assert Utf8(n).name == n;
    }
  }

  /** Some regular file has a name that is not valid UTF-8. */
  predicate HasInvalidName(d: Dir) {
    exists k :: k in d.entries && k.NotUtf8? && d.entries[k].Regular?
  }

  function FileData(d: Dir, n: string): Bytes
    requires IsFile(d, n)
  {
    d.entries[Utf8(n)].data
  }

  /** Replaces (or adds) the entry named `n`. */
  function Put(d: Dir, n: string, node: Node): (r: Dir)
    ensures r.entries.Keys == d.entries.Keys + {Utf8(n)}
    ensures r.entries[Utf8(n)] == node
    ensures forall k :: k in d.entries && k != Utf8(n) ==> r.entries[k] == d.entries[k]
    ensures r.listable == d.listable && r.faults == d.faults
  {
    d.(entries := d.entries[Utf8(n) := node])
  }

  /** The two directories hold the same names, kinds and contents, and fail in
      the same places; only read-only bits may differ. */
  ghost predicate SameFiles(d: Dir, d': Dir) {
    && d'.entries.Keys == d.entries.Keys
    && d'.listable == d.listable
    && d'.faults == d.faults
    && forall k :: k in d.entries ==>
         (d.entries[k].Other? <==> d'.entries[k].Other?)
         && (d.entries[k].Regular? ==> d'.entries[k].data == d.entries[k].data)
  }

  lemma SameFilesKeepsNames(d: Dir, d': Dir)
    requires SameFiles(d, d')
    ensures FileNames(d') == FileNames(d)
    ensures HasInvalidName(d') == HasInvalidName(d)
    ensures forall n :: IsFile(d, n) ==> IsFile(d', n) && FileData(d', n) == FileData(d, n)
  {
    forall n | n in FileNames(d) ensures n in FileNames(d') {
      FileNamesAreFiles(d, n);
      FileNamesAreFiles(d', n);
    }
    forall n | n in FileNames(d') ensures n in FileNames(d) {
      FileNamesAreFiles(d, n);
      FileNamesAreFiles(d', n);
    }
  }

  lemma SameFilesTransitive(d: Dir, d': Dir, d'': Dir)
    requires SameFiles(d, d') && SameFiles(d', d'')
    ensures SameFiles(d, d'')
  {
  }

  /** `d'` differs from `d` only at the paths named in `names`: nothing is
      removed, nothing else is changed, and the environment is the same. */
  ghost predicate Touches(d: Dir, d': Dir, names: set<string>) {
    && d'.listable == d.listable
    && d'.faults == d.faults
    && (forall k :: k in d.entries ==> k in d'.entries)
    && (forall k :: k in d'.entries ==> k in d.entries || (k.Utf8? && k.name in names))
    && (forall k :: k in d.entries && !(k.Utf8? && k.name in names) ==> d'.entries[k] == d.entries[k])
  }

  lemma TouchesTransitive(d: Dir, d': Dir, d'': Dir, a: set<string>, b: set<string>)
    requires Touches(d, d', a) && Touches(d', d'', b)
    ensures Touches(d, d'', a + b)
  {
  }

  lemma TouchesWiden(d: Dir, d': Dir, a: set<string>, b: set<string>)
    requires Touches(d, d', a) && a <= b
    ensures Touches(d, d', b)
  {
  }

  /** An entry the program cannot open for writing: a read-only file or a non-file. */
  predicate Protected(d: Dir, k: OsName)
    requires k in d.entries
  {
    d.entries[k].Other? || d.entries[k].readonly
  }
}
