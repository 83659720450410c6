/** The replicated state: a grow-only set of `(file name, contents)` pairs.
    The set holds pairs, not a map from names, so after a merge two entries
    may share a name and differ in their contents. */
module Crdt {
  import opened Order

  newtype Byte = x: int | 0 <= x < 256
  type Bytes = seq<Byte>

  /** One captured file: its name and its full contents. */
  type Entry = (string, Bytes)

  datatype Library = Library(entries: set<Entry>)

  /** The names the library holds an entry for. */
  function Names(lib: Library): set<string> {
    set e | e in lib.entries :: e.0
  }

  /** No two entries of the library share a name. */
  ghost predicate NamesUnique(lib: Library) {
    forall e, e' :: e in lib.entries && e' in lib.entries && e.0 == e'.0 ==> e == e'
  }

  /** The state written by `init` when no durable copy exists yet. */
  function New(): (r: Library)
    ensures Names(r) == {}
    ensures forall e :: e !in r.entries
  {
    Library({})
  }

  /** Merging another replica's state: `BTreeSet::append`, i.e. set union. */
  function Merge(a: Library, b: Library): (r: Library)
    ensures forall e :: e in r.entries <==> e in a.entries || e in b.entries
  {
    Library(a.entries + b.entries)
  }

  /** Adding one captured file: `BTreeSet::insert`. */
  function Insert(lib: Library, e: Entry): (r: Library)
    ensures forall x :: x in r.entries <==> x in lib.entries || x == e
    ensures Names(r) == Names(lib) + {e.0}
  {
    Library(lib.entries + {e})
  }

  /** A library is contained in another when every entry of the first is one
      of the second: the order of the grow-only set. */
  predicate Below(a: Library, b: Library) {
    a.entries <= b.entries
  }

  lemma NewIsMergeIdentity(a: Library)
    ensures Merge(New(), a) == a && Merge(a, New()) == a
  {
  }

  lemma MergeCommutative(a: Library, b: Library)
    ensures Merge(a, b) == Merge(b, a)
  {
  }

  lemma MergeAssociative(a: Library, b: Library, c: Library)
    ensures Merge(Merge(a, b), c) == Merge(a, Merge(b, c))
  {
  }

  lemma MergeIdempotent(a: Library, b: Library)
    ensures Merge(a, a) == a
    ensures Merge(Merge(a, b), b) == Merge(a, b)
  {
  }

  /** Merge is the least upper bound: both inputs survive in the result, and
      any state containing both inputs contains the result. */
  lemma MergeIsLeastUpperBound(a: Library, b: Library, c: Library)
    ensures Below(a, Merge(a, b)) && Below(b, Merge(a, b))
    ensures Below(a, c) && Below(b, c) ==> Below(Merge(a, b), c)
  {
  }

  /** Merging a state already contained in the local one changes nothing. */
  lemma MergeAbsorbs(a: Library, b: Library)
    requires Below(b, a)
    ensures Merge(a, b) == a
  {
  }

  /** Merge does not resolve conflicts by name: two replicas that captured
      different contents under one name both keep their pair after merging. */
  lemma MergeKeepsConflictingPairs(n: string, x: Bytes, y: Bytes)
    requires x != y
    ensures var r := Merge(Library({(n, x)}), Library({(n, y)}));
      && (n, x) in r.entries && (n, y) in r.entries
      && Names(r) == {n}
      && !NamesUnique(r)
  {
    var r := Merge(Library({(n, x)}), Library({(n, y)}));
    assert (n, x) in r.entries && (n, y) in r.entries;
    assert Names(r) == {n} by {
      assert forall e :: e in r.entries ==> e.0 == n;
    }
  }

  /** The state of a replica that started empty and merged the given
      snapshots one after another. */
  function MergeAll(snapshots: seq<Library>): Library
  {
    if |snapshots| == 0 then New()
    else Merge(MergeAll(snapshots[..|snapshots| - 1]), snapshots[|snapshots| - 1])
  }

  lemma {:induction false} MergeAllHoldsExactlyTheSnapshots(snapshots: seq<Library>)
    ensures forall e :: e in MergeAll(snapshots).entries <==>
      exists i :: 0 <= i < |snapshots| && e in snapshots[i].entries
  {
    if |snapshots| > 0 {
      var init := snapshots[..|snapshots| - 1];
      MergeAllHoldsExactlyTheSnapshots(init);
      forall e | e in MergeAll(snapshots).entries
        ensures exists i :: 0 <= i < |snapshots| && e in snapshots[i].entries
      {
        if e !in snapshots[|snapshots| - 1].entries {
          var i :| 0 <= i < |init| && e in init[i].entries;
          assert snapshots[i] == init[i];
        }
      }
      forall e, i | 0 <= i < |snapshots| && e in snapshots[i].entries
        ensures e in MergeAll(snapshots).entries
      {
        if i < |init| {
          assert init[i] == snapshots[i];
        }
      }
    }
  }

  /** Convergence: replicas that merged the same snapshots, in any order and
      any number of times each, hold the same state. */
  lemma MergeAllIgnoresOrderAndRepetition(s: seq<Library>, t: seq<Library>)
    requires forall l :: l in s <==> l in t
    ensures MergeAll(s) == MergeAll(t)
  {
    MergeAllHoldsExactlyTheSnapshots(s);
    MergeAllHoldsExactlyTheSnapshots(t);
    forall e | e in MergeAll(s).entries
      ensures e in MergeAll(t).entries
    {
      var i :| 0 <= i < |s| && e in s[i].entries;
      assert s[i] in t;
    }
    forall e | e in MergeAll(t).entries
      ensures e in MergeAll(s).entries
    {
      var i :| 0 <= i < |t| && e in t[i].entries;
      assert t[i] in s;
    }
  }

  predicate ByteLess(x: Byte, y: Byte) {
    x < y
  }

  /** The order of `(String, Vec<u8>)`: by name, then by contents. */
  predicate EntryLess(x: Entry, y: Entry) {
    NameLess(x.0, y.0) || (x.0 == y.0 && Lex(x.1, y.1, ByteLess))
  }

  lemma EntryLessIsStrictTotal()
    ensures StrictTotal(EntryLess)
  {
    NameLessIsStrictTotal();
    assert StrictTotal(ByteLess);
    forall x: Entry {
      LexIrreflexive(x.1, ByteLess);
    }
    forall x: Entry, y: Entry, z: Entry | EntryLess(x, y) && EntryLess(y, z)
      ensures EntryLess(x, z)
    {
      if x.0 == y.0 && y.0 == z.0 {
        LexTransitive(x.1, y.1, z.1, ByteLess);
      }
    }
    forall x: Entry, y: Entry
      ensures x == y || EntryLess(x, y) || EntryLess(y, x)
    {
      LexTotal(x.1, y.1, ByteLess);
    }
  }

  lemma EntryLessAsymmetric(x: Entry, y: Entry)
    ensures !EntryLess(x, x)
    ensures EntryLess(x, y) ==> !EntryLess(y, x)
  {
    EntryLessIsStrictTotal();
  }

  /** The library's entries in `BTreeSet` iteration order. */
  function InOrder(lib: Library): (r: seq<Entry>)
    ensures |r| == |lib.entries|
    ensures forall e :: e in lib.entries <==> e in r
    ensures forall i, j :: 0 <= i < j < |r| ==> EntryLess(r[i], r[j]) && r[i] != r[j]
  {
    EntryLessIsStrictTotal();
    var r := Sorted(lib.entries, EntryLess);
    AscendingIsDistinct(r, EntryLess);
    r
  }
}
