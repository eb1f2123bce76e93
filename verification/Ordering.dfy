/** Strict total orders, and sorting a finite set by one. */
module Ordering {

  ghost predicate StrictTotal<T(!new)>(less: (T, T) -> bool) {
    && (forall x :: !less(x, x))
    && (forall x, y, z :: less(x, y) && less(y, z) ==> less(x, z))
    && (forall x, y :: x == y || less(x, y) || less(y, x))
  }

  ghost predicate Ascending<T>(s: seq<T>, less: (T, T) -> bool) {
    forall i, j :: 0 <= i < j < |s| ==> less(s[i], s[j])
  }

  /** Lexicographic order over an order of the elements, as Python compares strings and lists. */
  predicate LexBy<T(==)>(a: seq<T>, b: seq<T>, less: (T, T) -> bool) {
    b != [] && (a == [] || less(a[0], b[0]) || (a[0] == b[0] && LexBy(a[1..], b[1..], less)))
  }

  /** a and b agree before position n, where a ends or has the smaller element. */
  ghost predicate SmallerAt<T>(a: seq<T>, b: seq<T>, n: nat, less: (T, T) -> bool) {
    n <= |a| && n < |b| && a[..n] == b[..n] && (n == |a| || less(a[n], b[n]))
  }

  /** The smaller sequence ends first, or is smaller where the two first differ. */
  lemma {:induction false} LexMeaning<T(!new)>(a: seq<T>, b: seq<T>, less: (T, T) -> bool)
    ensures LexBy(a, b, less) <==> exists n: nat :: SmallerAt(a, b, n, less)
  {
    if a == [] && b != [] {
      assert SmallerAt(a, b, 0, less);
    } else if b != [] {
      LexMeaning(a[1..], b[1..], less);
      if less(a[0], b[0]) { assert SmallerAt(a, b, 0, less); }
      if a[0] == b[0] && LexBy(a[1..], b[1..], less) {
        var n: nat :| SmallerAt(a[1..], b[1..], n, less);
        assert a[..n + 1] == [a[0]] + a[1..][..n] && b[..n + 1] == [b[0]] + b[1..][..n];
        assert SmallerAt(a, b, n + 1, less);
      }
      forall n: nat | n > 0 && SmallerAt(a, b, n, less) ensures a[0] == b[0] && LexBy(a[1..], b[1..], less) {
        assert a[..n][0] == b[..n][0];
        assert a[1..][..n - 1] == a[..n][1..] && b[1..][..n - 1] == b[..n][1..];
        assert SmallerAt(a[1..], b[1..], n - 1, less);
      }
    }
  }

  lemma {:induction false} LexTransitive<T(!new)>(a: seq<T>, b: seq<T>, c: seq<T>, less: (T, T) -> bool)
    requires StrictTotal(less) && LexBy(a, b, less) && LexBy(b, c, less)
    ensures LexBy(a, c, less)
  {
    if a != [] && a[0] == b[0] == c[0] {
      LexTransitive(a[1..], b[1..], c[1..], less);
    }
  }

  lemma {:induction false} LexTrichotomy<T(!new)>(a: seq<T>, b: seq<T>, less: (T, T) -> bool)
    requires StrictTotal(less)
    ensures !LexBy(a, a, less)
    ensures a == b || LexBy(a, b, less) || LexBy(b, a, less)
  {
    if a != [] {
      LexTrichotomy(a[1..], if b == [] then b else b[1..], less);
      if b != [] && a[0] == b[0] {
        assert a == [a[0]] + a[1..] && b == [b[0]] + b[1..];
      }
    }
  }

  /** Sequences are strictly and totally ordered whenever their elements are. */
  lemma LexIsStrictTotal<T(!new)>(less: (T, T) -> bool)
    requires StrictTotal(less)
    ensures StrictTotal((a: seq<T>, b: seq<T>) => LexBy(a, b, less))
  {
    forall a, b, c | LexBy(a, b, less) && LexBy(b, c, less) ensures LexBy(a, c, less) {
      LexTransitive(a, b, c, less);
    }
    forall a, b ensures !LexBy(a, a, less) && (a == b || LexBy(a, b, less) || LexBy(b, a, less)) {
      LexTrichotomy(a, b, less);
    }
  }

  predicate CharLess(a: char, b: char) {
    a < b
  }

  /** Code-point order on strings. */
  predicate StringLess(a: string, b: string) {
    LexBy(a, b, CharLess)
  }

  /** The shorter text, or the one with the smaller character where the two first differ. */
  lemma StringOrder(a: string, b: string)
    ensures StringLess(a, b) <==>
            exists n: nat :: n <= |a| && n < |b| && a[..n] == b[..n] && (n == |a| || a[n] < b[n])
  {
    LexMeaning(a, b, CharLess);
    forall n: nat | n <= |a| && n < |b| && a[..n] == b[..n] && (n == |a| || a[n] < b[n])
      ensures SmallerAt(a, b, n, CharLess)
    {}
    forall n: nat | SmallerAt(a, b, n, CharLess)
      ensures n <= |a| && n < |b| && a[..n] == b[..n] && (n == |a| || a[n] < b[n])
    {}
  }

  lemma StringsAreOrdered()
    ensures StrictTotal(StringLess)
  {
    LexIsStrictTotal(CharLess);
    var lex := (a: string, b: string) => LexBy(a, b, CharLess);
    assert forall a, b :: StringLess(a, b) == lex(a, b);
  }

  function Insert<T>(x: T, s: seq<T>, less: (T, T) -> bool): seq<T> {
    if s == [] || less(x, s[0]) then [x] + s else [s[0]] + Insert(x, s[1..], less)
  }

  lemma {:induction false} InsertAscends<T(!new)>(x: T, s: seq<T>, less: (T, T) -> bool)
    requires StrictTotal(less) && Ascending(s, less) && x !in s
    ensures Ascending(Insert(x, s, less), less)
    ensures forall y :: y in Insert(x, s, less) <==> y == x || y in s
  {
    if s != [] && !less(x, s[0]) {
      InsertAscends(x, s[1..], less);
      var r := Insert(x, s[1..], less);
      assert s == [s[0]] + s[1..];
      forall j | 0 <= j < |r| ensures less(s[0], r[j]) {
        assert r[j] in r;
        if r[j] != x { var m :| 0 <= m < |s[1..]| && s[1..][m] == r[j]; }
      }
    }
  }

  /** The elements of a set, each once, in order: `sorted` on a set. */
  method SortSet<T(==,!new)>(s: set<T>, less: (T, T) -> bool) returns (r: seq<T>)
    requires StrictTotal(less)
    ensures Ascending(r, less)
    ensures forall x :: x in r <==> x in s
  {
    r := [];
    var left := s;
    while left != {}
      invariant left <= s && Ascending(r, less)
      invariant forall x :: x in r <==> x in s - left
    {
      var x :| x in left;
      InsertAscends(x, r, less);
      r, left := Insert(x, r, less), left - {x};
    }
  }
}
