/** The iteration order of the program's ordered sets.  A `BTreeSet` yields its
    elements in ascending order; strings compare lexicographically by code
    point and byte vectors lexicographically by byte, a proper prefix first. */
module Order {

  /** `less` is a strict total order on `T`. */
  ghost predicate StrictTotal<T(!new)>(less: (T, T) -> bool) {
    && (forall x :: !less(x, x))
    && (forall x, y, z :: less(x, y) && less(y, z) ==> less(x, z))
    && (forall x, y :: x == y || less(x, y) || less(y, x))
  }

  /** Strict lexicographic order on sequences, comparing elements by `less`;
      a proper prefix comes first. */
  predicate Lex<T(==)>(a: seq<T>, b: seq<T>, less: (T, T) -> bool) {
    if |a| == 0 then |b| > 0
    else |b| > 0 && (less(a[0], b[0]) || (a[0] == b[0] && Lex(a[1..], b[1..], less)))
  }

  lemma {:induction false} LexIrreflexive<T(!new)>(a: seq<T>, less: (T, T) -> bool)
    requires StrictTotal(less)
    ensures !Lex(a, a, less)
  {
    if |a| > 0 {
      LexIrreflexive(a[1..], less);
    }
  }

  lemma {:induction false} LexTransitive<T(!new)>(a: seq<T>, b: seq<T>, c: seq<T>, less: (T, T) -> bool)
    requires StrictTotal(less)
    requires Lex(a, b, less) && Lex(b, c, less)
    ensures Lex(a, c, less)
  {
    if |a| > 0 && a[0] == b[0] && b[0] == c[0] {
      LexTransitive(a[1..], b[1..], c[1..], less);
    }
  }

  lemma {:induction false} LexTotal<T(!new)>(a: seq<T>, b: seq<T>, less: (T, T) -> bool)
    requires StrictTotal(less)
    ensures a == b || Lex(a, b, less) || Lex(b, a, less)
  {
    if |a| > 0 && |b| > 0 && a[0] == b[0] {
      LexTotal(a[1..], b[1..], less);
      if a[1..] == b[1..] {
        assert a == [a[0]] + a[1..] && b == [b[0]] + b[1..];
      }
    }
  }

  predicate CharLess(x: char, y: char) {
    x < y
  }

  /** The order of Rust's `String`: byte-wise on UTF-8, which is code-point order. */
  predicate NameLess(a: string, b: string) {
    Lex(a, b, CharLess)
  }

  lemma NameLessIsStrictTotal()
    ensures StrictTotal(NameLess)
  {
    assert StrictTotal(CharLess);
    forall x: string {
      LexIrreflexive(x, CharLess);
    }
    forall x: string, y: string, z: string | NameLess(x, y) && NameLess(y, z)
      ensures NameLess(x, z)
    {
      LexTransitive(x, y, z, CharLess);
    }
    forall x: string, y: string
      ensures x == y || NameLess(x, y) || NameLess(y, x)
    {
      LexTotal(x, y, CharLess);
    }
  }

  lemma NameLessAsymmetric(a: string, b: string)
    ensures !NameLess(a, a)
    ensures NameLess(a, b) ==> !NameLess(b, a)
  {
    NameLessIsStrictTotal();
  }

  /** Finds the least element of a non-empty finite set. */
  lemma {:induction false} FindLeast<T(!new)>(s: set<T>, less: (T, T) -> bool) returns (m: T)
    requires s != {}
    requires StrictTotal(less)
    ensures m in s && forall y :: y in s && y != m ==> less(m, y)
    decreases |s|
  {
    var x :| x in s;
    if s == {x} {
      m := x;
    } else {
      var m' := FindLeast(s - {x}, less);
      if less(x, m') {
        m := x;
        forall y | y in s && y != x
          ensures less(x, y)
        {
          if y != m' {
            assert y in s - {x};
          }
        }
      } else {
        m := m';
        forall y | y in s && y != m'
          ensures less(m', y)
        {
          if y != x {
            assert y in s - {x};
          }
        }
      }
    }
  }

  /** Every non-empty finite set has a least element. */
  lemma LeastExists<T(!new)>(s: set<T>, less: (T, T) -> bool)
    requires s != {}
    requires StrictTotal(less)
    ensures exists m :: m in s && forall y :: y in s && y != m ==> less(m, y)
  {
    var m := FindLeast(s, less);
  }

  /** The least element of a non-empty set. */
  function Least<T(!new)>(s: set<T>, less: (T, T) -> bool): (m: T)
    requires s != {}
    requires StrictTotal(less)
    ensures m in s
    ensures forall y :: y in s && y != m ==> less(m, y)
  {
    LeastExists(s, less);
    var m :| m in s && forall y :: y in s && y != m ==> less(m, y);
    m
  }

  /** The elements of a finite set in ascending order: the iteration order of
      an ordered set. */
  function Sorted<T(!new)>(s: set<T>, less: (T, T) -> bool): (r: seq<T>)
    requires StrictTotal(less)
    ensures |r| == |s|
    ensures forall x :: x in s <==> x in r
    ensures forall i, j :: 0 <= i < j < |r| ==> less(r[i], r[j])
    decreases |s|
  {
    if s == {} then []
    else
      var m := Least(s, less);
      [m] + Sorted(s - {m}, less)
  }

  /** Strictly ascending sequences hold no element twice. */
  lemma AscendingIsDistinct<T(!new)>(r: seq<T>, less: (T, T) -> bool)
    requires StrictTotal(less)
    requires forall i, j :: 0 <= i < j < |r| ==> less(r[i], r[j])
    ensures forall i, j :: 0 <= i < j < |r| ==> r[i] != r[j]
  {
  }

  /** In a strictly ascending sequence, the order of two elements is the
      order of their positions. */
  lemma AscendingPosition<T(!new)>(r: seq<T>, less: (T, T) -> bool, i: int, j: int)
    requires StrictTotal(less)
    requires forall i, j :: 0 <= i < j < |r| ==> less(r[i], r[j])
    requires 0 <= i < |r| && 0 <= j < |r|
    ensures less(r[i], r[j]) <==> i < j
  {
    if j < i {
      assert less(r[j], r[i]);
    }
  }
}
