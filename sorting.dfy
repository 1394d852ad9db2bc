/** The table operations the ledger's queries are built from: filtering, a stable
    sort on a key (SQL `ORDER BY` and Python's `sorted`), and keeping one row per
    group (SQL `GROUP BY`). Sort keys are integer sequences compared
    lexicographically, so a descending order is a negated key and a name is its
    sequence of code points. */
module Sorting {

  /** Lexicographic order on integer sequences; a proper prefix comes first. */
  predicate LexLe(a: seq<int>, b: seq<int>) {
    |a| == 0 || (|b| > 0 && (a[0] < b[0] || (a[0] == b[0] && LexLe(a[1..], b[1..]))))
  }

  lemma {:induction false} LexLeReflexive(a: seq<int>)
    ensures LexLe(a, a)
  {
    if |a| > 0 {
      LexLeReflexive(a[1..]);
    }
  }

  lemma {:induction false} LexLeTotal(a: seq<int>, b: seq<int>)
    ensures LexLe(a, b) || LexLe(b, a)
  {
    if |a| > 0 && |b| > 0 && a[0] == b[0] {
      LexLeTotal(a[1..], b[1..]);
    }
  }

  lemma {:induction false} LexLeTransitive(a: seq<int>, b: seq<int>, c: seq<int>)
    requires LexLe(a, b) && LexLe(b, c)
    ensures LexLe(a, c)
  {
    if |a| > 0 && a[0] == b[0] && b[0] == c[0] {
      LexLeTransitive(a[1..], b[1..], c[1..]);
    }
  }

  /** On one-element keys the order is the order of the integers. */
  lemma LexLeSingleton(x: int, y: int)
    ensures LexLe([x], [y]) <==> x <= y
  {
    assert [x][1..] == [];
  }

  /** On keys of equal length the first differing position decides. */
  lemma LexLePair(x0: int, x1: int, y0: int, y1: int)
    ensures LexLe([x0, x1], [y0, y1]) <==> x0 < y0 || (x0 == y0 && x1 <= y1)
  {
    assert [x0, x1][1..] == [x1] && [y0, y1][1..] == [y1];
    LexLeSingleton(x1, y1);
  }

  lemma LexLeTriple(x0: int, x1: int, x2: int, y0: int, y1: int, y2: int)
    ensures LexLe([x0, x1, x2], [y0, y1, y2]) <==>
              x0 < y0 || (x0 == y0 && (x1 < y1 || (x1 == y1 && x2 <= y2)))
  {
    assert [x0, x1, x2][1..] == [x1, x2] && [y0, y1, y2][1..] == [y1, y2];
    LexLePair(x1, x2, y1, y2);
  }

  /** The rows of `s` that satisfy `p`, in their order. */
  function Filter<T>(s: seq<T>, p: T -> bool): (r: seq<T>)
    ensures |r| <= |s|
    ensures forall x :: x in r ==> x in s && p(x)
    ensures forall x :: x in s && p(x) ==> x in r
  {
    if s == [] then []
    else (if p(s[0]) then [s[0]] else []) + Filter(s[1..], p)
  }

  lemma {:induction false} FilterAppend<T>(a: seq<T>, b: seq<T>, p: T -> bool)
    ensures Filter(a + b, p) == Filter(a, p) + Filter(b, p)
  {
    if a != [] {
      assert (a + b)[1..] == a[1..] + b;
      FilterAppend(a[1..], b, p);
    } else {
      assert a + b == b;
    }
  }

  lemma FilterCons<T>(x: T, s: seq<T>, p: T -> bool)
    ensures Filter([x] + s, p) == (if p(x) then [x] else []) + Filter(s, p)
  {
    assert ([x] + s)[1..] == s;
  }

  /** Two filters can be applied in either order. */
  lemma {:induction false} FilterFilter<T>(s: seq<T>, p: T -> bool, q: T -> bool)
    ensures Filter(Filter(s, p), q) == Filter(Filter(s, q), p)
  {
    if s != [] {
      FilterFilter(s[1..], p, q);
      var fp := if p(s[0]) then [s[0]] else [];
      var fq := if q(s[0]) then [s[0]] else [];
      FilterAppend(fp, Filter(s[1..], p), q);
      FilterAppend(fq, Filter(s[1..], q), p);
      if p(s[0]) { FilterCons(s[0], [], q); }
      if q(s[0]) { FilterCons(s[0], [], p); }
    }
  }

  /** `s` is in ascending order of `key`. */
  ghost predicate SortedBy<T>(s: seq<T>, key: T -> seq<int>) {
    forall i, j :: 0 <= i < j < |s| ==> LexLe(key(s[i]), key(s[j]))
  }

  /** Puts `x` in front of the first row whose key is not below its own. */
  function Insert<T>(x: T, s: seq<T>, key: T -> seq<int>): (r: seq<T>)
    ensures |r| == |s| + 1
    ensures forall y :: y in r ==> y == x || y in s
  {
    if s == [] then [x]
    else if LexLe(key(x), key(s[0])) then [x] + s
    else [s[0]] + Insert(x, s[1..], key)
  }

  /** Stable insertion sort on `key`: rows with equal keys keep their order. */
  function SortBy<T>(s: seq<T>, key: T -> seq<int>): (r: seq<T>)
    ensures |r| == |s|
    ensures forall y :: y in r ==> y in s
  {
    if s == [] then [] else Insert(s[0], SortBy(s[1..], key), key)
  }

  lemma {:induction false} InsertPermutes<T>(x: T, s: seq<T>, key: T -> seq<int>)
    ensures multiset(Insert(x, s, key)) == multiset{x} + multiset(s)
  {
    if s != [] && !LexLe(key(x), key(s[0])) {
      InsertPermutes(x, s[1..], key);
      assert s == [s[0]] + s[1..];
    }
  }

  /** The sort only reorders: it yields a permutation of its input. */
  lemma {:induction false} SortByPermutes<T>(s: seq<T>, key: T -> seq<int>)
    ensures multiset(SortBy(s, key)) == multiset(s)
  {
    if s != [] {
      SortByPermutes(s[1..], key);
      InsertPermutes(s[0], SortBy(s[1..], key), key);
      assert s == [s[0]] + s[1..];
    }
  }

  lemma {:induction false} InsertSorted<T>(x: T, s: seq<T>, key: T -> seq<int>)
    requires SortedBy(s, key)
    ensures SortedBy(Insert(x, s, key), key)
  {
    if s != [] {
      var r := Insert(x, s, key);
      if LexLe(key(x), key(s[0])) {
        forall j | 0 < j < |r| ensures LexLe(key(x), key(r[j])) {
          if j > 1 { LexLeTransitive(key(x), key(s[0]), key(s[j - 1])); }
        }
      } else {
        LexLeTotal(key(x), key(s[0]));
        InsertSorted(x, s[1..], key);
        var t := Insert(x, s[1..], key);
        forall j | 0 <= j < |t| ensures LexLe(key(s[0]), key(t[j])) {
          assert t[j] in t;
        }
      }
    }
  }

  /** The sort yields an ordered permutation of its input. */
  lemma {:induction false} SortBySorted<T>(s: seq<T>, key: T -> seq<int>)
    ensures SortedBy(SortBy(s, key), key)
  {
    if s != [] {
      SortBySorted(s[1..], key);
      InsertSorted(s[0], SortBy(s[1..], key), key);
    }
  }

  lemma InsertFront<T>(x: T, s: seq<T>, key: T -> seq<int>)
    requires s == [] || LexLe(key(x), key(s[0]))
    ensures Insert(x, s, key) == [x] + s
  {
  }

  lemma InsertPast<T>(x: T, y: T, s: seq<T>, key: T -> seq<int>)
    requires !LexLe(key(x), key(y))
    ensures Insert(x, [y] + s, key) == [y] + Insert(x, s, key)
  {
    assert ([y] + s)[1..] == s;
  }

  lemma {:induction false} FilterInsert<T>(x: T, t: seq<T>, key: T -> seq<int>, p: T -> bool)
    requires SortedBy(t, key)
    ensures Filter(Insert(x, t, key), p) == if p(x) then Insert(x, Filter(t, p), key) else Filter(t, p)
  {
    if t == [] {
      FilterCons(x, [], p);
    } else if LexLe(key(x), key(t[0])) {
      InsertFront(x, t, key);
      FilterCons(x, t, p);
      var ft := Filter(t, p);
      if p(x) && ft != [] {
        assert ft[0] in t;
        var m :| 0 <= m < |t| && t[m] == ft[0];
        if m > 0 {
          LexLeTransitive(key(x), key(t[0]), key(ft[0]));
        }
      }
      if p(x) {
        InsertFront(x, ft, key);
      }
    } else {
      var t' := t[1..];
      assert t == [t[0]] + t';
      InsertPast(x, t[0], t', key);
      FilterCons(t[0], Insert(x, t', key), p);
      FilterInsert(x, t', key, p);
      FilterCons(t[0], t', p);
      var ft' := Filter(t', p);
      var fi := Filter(Insert(x, t', key), p);
      if p(t[0]) {
        assert Filter(Insert(x, t, key), p) == [t[0]] + fi;
        assert Filter(t, p) == [t[0]] + ft';
        if p(x) {
          InsertPast(x, t[0], ft', key);
        }
      } else {
        assert Filter(Insert(x, t, key), p) == [] + fi == fi;
        assert Filter(t, p) == [] + ft' == ft';
      }
    }
  }

  lemma SortByCons<T>(y: T, s: seq<T>, key: T -> seq<int>)
    ensures SortBy([y] + s, key) == Insert(y, SortBy(s, key), key)
  {
    assert ([y] + s)[1..] == s;
  }

  /** Filtering a sorted table gives the sorted filtered table. */
  lemma {:induction false} FilterSortBy<T>(s: seq<T>, key: T -> seq<int>, p: T -> bool)
    ensures Filter(SortBy(s, key), p) == SortBy(Filter(s, p), key)
  {
    if s != [] {
      var s' := s[1..];
      var fs' := Filter(s', p);
      assert s == [s[0]] + s';
      FilterSortBy(s', key, p);
      SortBySorted(s', key);
      FilterInsert(s[0], SortBy(s', key), key, p);
      FilterCons(s[0], s', p);
      if p(s[0]) {
        assert Filter(s, p) == [s[0]] + fs';
        SortByCons(s[0], fs', key);
      } else {
        assert Filter(s, p) == [] + fs' == fs';
      }
    }
  }

  /** Rows whose keys are all the same are left where they are. */
  lemma {:induction false} SortBySameKey<T>(s: seq<T>, key: T -> seq<int>, k: seq<int>)
    requires forall x :: x in s ==> key(x) == k
    ensures SortBy(s, key) == s
  {
    if s != [] {
      SortBySameKey(s[1..], key, k);
      LexLeReflexive(k);
      assert s == [s[0]] + s[1..];
    }
  }

  function KeyEquals<T>(key: T -> seq<int>, k: seq<int>): T -> bool {
    x => key(x) == k
  }

  /** Stability: the rows that share one key come out in the order they went in. */
  lemma SortByStable<T>(s: seq<T>, key: T -> seq<int>, k: seq<int>)
    ensures Filter(SortBy(s, key), KeyEquals(key, k)) == Filter(s, KeyEquals(key, k))
  {
    FilterSortBy(s, key, KeyEquals(key, k));
    SortBySameKey(Filter(s, KeyEquals(key, k)), key, k);
  }

  /** Sorting depends only on the keys of the rows being sorted. */
  lemma {:induction false} SortByKeyAgreement<T>(s: seq<T>, key1: T -> seq<int>, key2: T -> seq<int>)
    requires forall x :: x in s ==> key1(x) == key2(x)
    ensures SortBy(s, key1) == SortBy(s, key2)
  {
    if s != [] {
      var t := SortBy(s[1..], key1);
      SortByKeyAgreement(s[1..], key1, key2);
      InsertKeyAgreement(s[0], t, key1, key2);
    }
  }

  lemma {:induction false} InsertKeyAgreement<T>(x: T, s: seq<T>, key1: T -> seq<int>, key2: T -> seq<int>)
    requires key1(x) == key2(x)
    requires forall y :: y in s ==> key1(y) == key2(y)
    ensures Insert(x, s, key1) == Insert(x, s, key2)
  {
    if s != [] {
      InsertKeyAgreement(x, s[1..], key1, key2);
    }
  }

  function OutsideGroup<T>(group: T -> int, g: int): T -> bool {
    x => group(x) != g
  }

  /** SQL `GROUP BY`: the first row of each group, in the order the groups first
      appear. */
  function FirstOfEachGroup<T>(s: seq<T>, group: T -> int): (r: seq<T>)
    ensures forall x :: x in r ==> x in s
    decreases |s|
  {
    if s == [] then []
    else [s[0]] + FirstOfEachGroup(Filter(s[1..], OutsideGroup(group, group(s[0]))), group)
  }

  /** Grouping keeps a row of every group that occurs... */
  lemma {:induction false} FirstOfEachGroupCovers<T>(s: seq<T>, group: T -> int, x: T)
    requires x in s
    ensures exists y :: y in FirstOfEachGroup(s, group) && group(y) == group(x)
    decreases |s|
  {
    var g := group(s[0]);
    var rest := Filter(s[1..], OutsideGroup(group, g));
    var r := FirstOfEachGroup(s, group);
    assert s[0] in r;
    if group(x) != g {
      assert x in s[1..] && OutsideGroup(group, g)(x);
      FirstOfEachGroupCovers(rest, group, x);
      var y :| y in FirstOfEachGroup(rest, group) && group(y) == group(x);
      assert y in r;
    }
  }

  /** ...and no two rows of the same group. */
  lemma {:induction false} FirstOfEachGroupDistinct<T>(s: seq<T>, group: T -> int)
    ensures forall i, j :: 0 <= i < j < |FirstOfEachGroup(s, group)| ==>
              group(FirstOfEachGroup(s, group)[i]) != group(FirstOfEachGroup(s, group)[j])
    decreases |s|
  {
    if s != [] {
      var g := group(s[0]);
      var rest := Filter(s[1..], OutsideGroup(group, g));
      var tail := FirstOfEachGroup(rest, group);
      var r := FirstOfEachGroup(s, group);
      FirstOfEachGroupDistinct(rest, group);
      assert r == [s[0]] + tail;
      forall i, j | 0 <= i < j < |r| ensures group(r[i]) != group(r[j]) {
        assert r[j] == tail[j - 1];
        assert tail[j - 1] in rest;
        assert OutsideGroup(group, g)(r[j]);
        if i > 0 {
          assert r[i] == tail[i - 1];
        }
      }
    }
  }

  /** Filtering on a property shared by a whole group commutes with grouping. */
  lemma {:induction false} FilterFirstOfEachGroup<T>(s: seq<T>, group: T -> int, p: T -> bool)
    requires forall x, y :: group(x) == group(y) ==> p(x) == p(y)
    ensures Filter(FirstOfEachGroup(s, group), p) == FirstOfEachGroup(Filter(s, p), group)
    decreases |s|
  {
    if s != [] {
      var s' := s[1..];
      var notG := OutsideGroup(group, group(s[0]));
      var rest := Filter(s', notG);
      assert s == [s[0]] + s';
      FilterFirstOfEachGroup(rest, group, p);
      FilterCons(s[0], FirstOfEachGroup(rest, group), p);
      FilterCons(s[0], s', p);
      FilterFilter(s', notG, p);
      if p(s[0]) {
        var fs' := Filter(s', p);
        assert Filter(s, p) == [s[0]] + fs';
        assert ([s[0]] + fs')[1..] == fs';
        assert FirstOfEachGroup(Filter(s, p), group)
            == [s[0]] + FirstOfEachGroup(Filter(fs', notG), group);
      } else {
        // every row of the first group is dropped by `p`
        FilterAllKept(Filter(s', p), notG);
        assert Filter(s, p) == [] + Filter(s', p) == Filter(s', p);
      }
    }
  }

  lemma {:induction false} FilterAllKept<T>(s: seq<T>, p: T -> bool)
    requires forall x :: x in s ==> p(x)
    ensures Filter(s, p) == s
  {
    if s != [] {
      FilterAllKept(s[1..], p);
      assert s == [s[0]] + s[1..];
    }
  }

  /** No row occurs twice. */
  predicate Distinct<T(==)>(s: seq<T>) {
    forall i, j :: 0 <= i < j < |s| ==> s[i] != s[j]
  }

  lemma {:induction false} FilterDistinct<T>(s: seq<T>, p: T -> bool)
    requires Distinct(s)
    ensures Distinct(Filter(s, p))
  {
    if s != [] {
      FilterDistinct(s[1..], p);
      assert s == [s[0]] + s[1..];
      FilterCons(s[0], s[1..], p);
      assert s[0] !in s[1..];
    }
  }

  lemma {:induction false} InsertDistinct<T>(x: T, s: seq<T>, key: T -> seq<int>)
    requires Distinct(s) && x !in s
    ensures Distinct(Insert(x, s, key))
  {
    if s != [] && !LexLe(key(x), key(s[0])) {
      InsertDistinct(x, s[1..], key);
      assert s[0] !in s[1..];
      assert s[0] !in Insert(x, s[1..], key);
    }
  }

  /** Sorting loses no row. */
  lemma SortByMembers<T>(s: seq<T>, key: T -> seq<int>)
    ensures forall x :: x in s ==> x in SortBy(s, key)
  {
    SortByPermutes(s, key);
    forall x | x in s ensures x in SortBy(s, key) {
      assert x in multiset(s);
    }
  }

  /** Sorting repeats no row. */
  lemma {:induction false} SortByDistinct<T>(s: seq<T>, key: T -> seq<int>)
    requires Distinct(s)
    ensures Distinct(SortBy(s, key))
  {
    if s != [] {
      SortByDistinct(s[1..], key);
      assert s[0] !in s[1..];
      InsertDistinct(s[0], SortBy(s[1..], key), key);
    }
  }

  /** What the ledger's queries need to know of a sort, in one place. */
  lemma SortByFacts<T>(s: seq<T>, key: T -> seq<int>)
    ensures SortedBy(SortBy(s, key), key)
    ensures forall x :: x in s ==> x in SortBy(s, key)
    ensures Distinct(s) ==> Distinct(SortBy(s, key))
  {
    SortBySorted(s, key);
    SortByMembers(s, key);
    if Distinct(s) {
      SortByDistinct(s, key);
    }
  }

  /** No two rows share a value of `f`. */
  ghost predicate DistinctBy<T>(s: seq<T>, f: T -> int) {
    forall i, j :: 0 <= i < j < |s| ==> f(s[i]) != f(s[j])
  }

  lemma {:induction false} InsertDistinctBy<T>(x: T, s: seq<T>, key: T -> seq<int>, f: T -> int)
    requires DistinctBy(s, f) && forall y :: y in s ==> f(y) != f(x)
    ensures DistinctBy(Insert(x, s, key), f)
  {
    if s != [] && !LexLe(key(x), key(s[0])) {
      InsertDistinctBy(x, s[1..], key, f);
      var t := Insert(x, s[1..], key);
      forall y | y in t ensures f(y) != f(s[0]) {
        if y != x {
          var j :| 0 <= j < |s[1..]| && s[1..][j] == y;
          assert s[j + 1] == y;
        }
      }
    }
  }

  /** Sorting keeps rows that differ in `f` apart. */
  lemma {:induction false} SortByDistinctBy<T>(s: seq<T>, key: T -> seq<int>, f: T -> int)
    requires DistinctBy(s, f)
    ensures DistinctBy(SortBy(s, key), f)
  {
    if s != [] {
      SortByDistinctBy(s[1..], key, f);
      forall y | y in SortBy(s[1..], key) ensures f(y) != f(s[0]) {
        var j :| 0 <= j < |s[1..]| && s[1..][j] == y;
        assert s[j + 1] == y;
      }
      InsertDistinctBy(s[0], SortBy(s[1..], key), key, f);
    }
  }
}
