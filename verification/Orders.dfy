/**
 Orders and sorting: what the library sorts the repository calls promise.
 Texts compare lexicographically, paths component by component.
 */
module Orders {

  ghost predicate StrictWeakOrder<T(!new)>(less: (T, T) -> bool) {
    && (forall x :: !less(x, x))
    && (forall x, y, z :: less(x, y) && less(y, z) ==> less(x, z))
    && (forall x, y, z :: less(x, z) ==> less(x, y) || less(y, z))
  }

  ghost predicate StrictTotalOrder<T(!new)>(less: (T, T) -> bool) {
    && StrictWeakOrder(less)
    && (forall x, y :: x == y || less(x, y) || less(y, x))
  }

  // ---------------------------------------------------------------- lexicographic order

  predicate LexLess<T(==)>(less: (T, T) -> bool, a: seq<T>, b: seq<T>) {
    && b != []
    && (a == [] || less(a[0], b[0]) || (a[0] == b[0] && LexLess(less, a[1..], b[1..])))
  }

  lemma {:induction false} LexIrreflexive<T(!new)>(less: (T, T) -> bool, a: seq<T>)
    requires StrictTotalOrder(less)
    ensures !LexLess(less, a, a)
  {
    if a != [] {
      LexIrreflexive(less, a[1..]);
    }
  }

  lemma {:induction false} LexTransitive<T(!new)>(less: (T, T) -> bool, a: seq<T>, b: seq<T>, c: seq<T>)
    requires StrictTotalOrder(less)
    requires LexLess(less, a, b) && LexLess(less, b, c)
    ensures LexLess(less, a, c)
  {
    if a != [] && a[0] == b[0] && b[0] == c[0] && !less(a[0], b[0]) && !less(b[0], c[0]) {
      LexTransitive(less, a[1..], b[1..], c[1..]);
    }
  }

  lemma {:induction false} LexTotal<T(!new)>(less: (T, T) -> bool, a: seq<T>, b: seq<T>)
    requires StrictTotalOrder(less)
    ensures a == b || LexLess(less, a, b) || LexLess(less, b, a)
  {
    if a != [] && b != [] && a[0] == b[0] {
      LexTotal(less, a[1..], b[1..]);
      assert a == [a[0]] + a[1..] && b == [b[0]] + b[1..];
    }
  }

  lemma LexIsStrictTotal<T(!new)>(less: (T, T) -> bool, lex: (seq<T>, seq<T>) -> bool)
    requires StrictTotalOrder(less)
    requires forall a, b :: lex(a, b) == LexLess(less, a, b)
    ensures StrictTotalOrder(lex)
  {
    forall a ensures !lex(a, a) {
      LexIrreflexive(less, a);
    }
    forall a, b ensures a == b || lex(a, b) || lex(b, a) {
      LexTotal(less, a, b);
    }
    forall a, b, c | lex(a, b) && lex(b, c) ensures lex(a, c) {
      LexTransitive(less, a, b, c);
    }
  }

  predicate CharLess(a: char, b: char) {
    a < b
  }

  predicate TextLess(a: string, b: string) {
    LexLess(CharLess, a, b)
  }

  lemma TextLessIsTotal()
    ensures StrictTotalOrder(TextLess)
  {
    LexIsStrictTotal(CharLess, TextLess);
  }

  /** The texts first differ at `k`, where the first holds the smaller character. */
  ghost predicate SmallerAt(a: string, b: string, k: nat) {
    k < |a| && k < |b| && a[..k] == b[..k] && a[k] < b[k]
  }

  lemma SmallerOneOn(a: string, b: string, k: nat)
    requires a != [] && b != [] && a[0] == b[0]
    ensures SmallerAt(a[1..], b[1..], k) <==> SmallerAt(a, b, k + 1)
    ensures !SmallerAt(a, b, 0)
  {
    if k < |a| - 1 && k < |b| - 1 {
      assert a[..k + 1] == [a[0]] + a[1..][..k] && b[..k + 1] == [b[0]] + b[1..][..k];
      assert a[1..][..k] == a[..k + 1][1..] && b[1..][..k] == b[..k + 1][1..];
    }
  }

  lemma SmallerAtFirst(a: string, b: string, k: nat)
    requires a != [] && b != [] && a[0] != b[0]
    ensures SmallerAt(a, b, k) <==> k == 0 && a[0] < b[0]
  {
    if 0 < k < |a| && k < |b| {
      assert a[..k][0] == a[0] && b[..k][0] == b[0];
    }
  }

  /** One text comes before another when it begins it, or when it holds the smaller character
      where they first differ. */
  lemma {:induction false} TextLessExactlyWhen(a: string, b: string)
    ensures TextLess(a, b) <==> (a <= b && a != b) || exists k: nat :: SmallerAt(a, b, k)
  {
    if a != [] && b != [] {
      if a[0] == b[0] {
        TextLessExactlyWhen(a[1..], b[1..]);
        forall k: nat ensures SmallerAt(a[1..], b[1..], k) <==> SmallerAt(a, b, k + 1) {
          SmallerOneOn(a, b, k);
        }
        SmallerOneOn(a, b, 0);
        assert a == [a[0]] + a[1..] && b == [b[0]] + b[1..];
        hide SmallerAt;
        if k: nat :| SmallerAt(a, b, k) {
          assert SmallerAt(a[1..], b[1..], k - 1);
        }
      } else {
        forall k: nat ensures SmallerAt(a, b, k) <==> k == 0 && a[0] < b[0] {
          SmallerAtFirst(a, b, k);
        }
        hide SmallerAt;
        assert TextLess(a, b) <==> a[0] < b[0];
        assert !(a <= b);
        assert a[0] < b[0] ==> SmallerAt(a, b, 0);
      }
    }
  }

  type Path = seq<string>

  predicate PathLess(a: Path, b: Path) {
    LexLess(TextLess, a, b)
  }

  lemma PathLessIsTotal()
    ensures StrictTotalOrder(PathLess)
  {
    TextLessIsTotal();
    LexIsStrictTotal(TextLess, PathLess);
  }

  /** A directory comes before what it holds, and siblings come in the order of their names. */
  lemma {:induction false} PathLessOfSiblings(dir: Path, a: string, b: string, p: Path, q: Path)
    ensures PathLess(dir, dir + [a])
    ensures TextLess(a, b) ==> PathLess(dir + [a] + p, dir + [b] + q)
  {
    if dir != [] {
      PathLessOfSiblings(dir[1..], a, b, p, q);
      assert (dir + [a])[1..] == dir[1..] + [a];
      assert (dir + [a] + p)[1..] == dir[1..] + [a] + p && (dir + [b] + q)[1..] == dir[1..] + [b] + q;
      assert (dir + [a] + p)[0] == dir[0] == (dir + [b] + q)[0];
    } else {
      assert dir + [a] + p == [a] + p && dir + [b] + q == [b] + q;
    }
  }

  // ---------------------------------------------------------------- sorting

  ghost predicate Ascending<T(!new)>(less: (T, T) -> bool, s: seq<T>) {
    forall i, j :: 0 <= i < j < |s| ==> !less(s[j], s[i])
  }

  ghost predicate StrictlyAscending<T(!new)>(less: (T, T) -> bool, s: seq<T>) {
    forall i, j :: 0 <= i < j < |s| ==> less(s[i], s[j])
  }

  function Insert<T>(less: (T, T) -> bool, x: T, s: seq<T>): seq<T> {
    if s == [] || !less(s[0], x) then [x] + s else [s[0]] + Insert(less, x, s[1..])
  }

  /** A stable sort: equal elements keep their order. */
  function Sort<T>(less: (T, T) -> bool, s: seq<T>): seq<T> {
    if s == [] then [] else Insert(less, s[0], Sort(less, s[1..]))
  }

  lemma {:induction false} InsertHolds<T>(less: (T, T) -> bool, x: T, s: seq<T>)
    ensures multiset(Insert(less, x, s)) == multiset{x} + multiset(s)
    ensures forall y :: y in Insert(less, x, s) <==> y == x || y in s
  {
    if s != [] && less(s[0], x) {
      InsertHolds(less, x, s[1..]);
      assert s == [s[0]] + s[1..];
    }
  }

  lemma {:induction false} InsertKeeps<T(!new)>(less: (T, T) -> bool, x: T, s: seq<T>)
    requires StrictWeakOrder(less) && Ascending(less, s)
    ensures Ascending(less, Insert(less, x, s))
  {
    if s != [] && less(s[0], x) {
      InsertKeeps(less, x, s[1..]);
      InsertHolds(less, x, s[1..]);
      var rest := Insert(less, x, s[1..]);
      forall j | 0 <= j < |rest| ensures !less(rest[j], s[0]) {
        assert rest[j] in rest;
      }
    }
  }

  lemma {:induction false} SortSorts<T(!new)>(less: (T, T) -> bool, s: seq<T>)
    requires StrictWeakOrder(less)
    ensures Ascending(less, Sort(less, s))
    ensures multiset(Sort(less, s)) == multiset(s)
    ensures |Sort(less, s)| == |s|
    ensures forall y :: y in Sort(less, s) <==> y in s
  {
    if s != [] {
      SortSorts(less, s[1..]);
      InsertKeeps(less, s[0], Sort(less, s[1..]));
      InsertHolds(less, s[0], Sort(less, s[1..]));
      assert s == [s[0]] + s[1..];
    }
    assert |multiset(Sort(less, s))| == |multiset(s)|;
  }

  /** Drops every element equal to its left neighbour. */
  function Dedup<T(==)>(s: seq<T>): seq<T> {
    if |s| < 2 then s
    else if s[0] == s[1] then Dedup(s[1..])
    else [s[0]] + Dedup(s[1..])
  }

  lemma {:induction false} DedupOfSorted<T(!new)>(less: (T, T) -> bool, s: seq<T>)
    requires StrictTotalOrder(less) && Ascending(less, s)
    ensures StrictlyAscending(less, Dedup(s))
    ensures forall y :: y in Dedup(s) <==> y in s
    ensures s != [] ==> Dedup(s) != [] && Dedup(s)[0] == s[0]
  {
    if |s| >= 2 {
      DedupOfSorted(less, s[1..]);
      assert s == [s[0]] + s[1..];
      var rest := Dedup(s[1..]);
      if s[0] != s[1] {
        assert less(s[0], s[1]);
        forall j | 0 <= j < |rest| ensures less(s[0], rest[j]) {
          if j > 0 { assert less(rest[0], rest[j]); }
        }
      }
    }
  }

  /** A strictly ascending sequence is determined by the elements it holds. */
  lemma {:induction false} AscendingIsUnique<T(!new)>(less: (T, T) -> bool, a: seq<T>, b: seq<T>)
    requires StrictTotalOrder(less) && StrictlyAscending(less, a) && StrictlyAscending(less, b)
    requires forall y :: y in a <==> y in b
    ensures a == b
  {
    assert a != [] ==> a[0] in b;
    assert b != [] ==> b[0] in a;
    if a != [] {
      var i :| 0 <= i < |b| && b[i] == a[0];
      var j :| 0 <= j < |a| && a[j] == b[0];
      assert a[0] == b[0];
      forall y ensures y in a[1..] <==> y in b[1..] {
        assert a == [a[0]] + a[1..] && b == [b[0]] + b[1..];
        assert y in a <==> y == a[0] || y in a[1..];
        assert y in b <==> y == b[0] || y in b[1..];
        assert a[0] !in a[1..] && b[0] !in b[1..];
      }
      AscendingIsUnique(less, a[1..], b[1..]);
      assert a == [a[0]] + a[1..] && b == [b[0]] + b[1..];
    }
  }

  /** Sorting and dropping repeats depends only on the set of elements. */
  lemma SortedDistinctIsUnique<T(!new)>(less: (T, T) -> bool, a: seq<T>, b: seq<T>)
    requires StrictTotalOrder(less)
    requires forall y :: y in a <==> y in b
    ensures Dedup(Sort(less, a)) == Dedup(Sort(less, b))
  {
    SortSorts(less, a);
    SortSorts(less, b);
    DedupOfSorted(less, Sort(less, a));
    DedupOfSorted(less, Sort(less, b));
    AscendingIsUnique(less, Dedup(Sort(less, a)), Dedup(Sort(less, b)));
  }
}
