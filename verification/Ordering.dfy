/** The order of strings, and a stable sort by a key, largest first. */
module Ordering {

  /** `a` comes before `b`, character by character. */
  predicate Less(a: string, b: string) {
    b != [] && (a == [] || a[0] < b[0] || (a[0] == b[0] && Less(a[1..], b[1..])))
  }

  /** They agree on some first characters, and then `a` ends or has the smaller one. */
  ghost predicate LessAt(a: string, b: string, k: nat) {
    k <= |a| && k < |b| && a[..k] == b[..k] && (k == |a| || a[k] < b[k])
  }

  lemma {:induction false} LessExactlyWhen(a: string, b: string)
    ensures Less(a, b) <==> exists k: nat :: LessAt(a, b, k)
  {
    assert LessAt(a, b, 0) <==> b != [] && (a == [] || a[0] < b[0]);
    if a != [] && b != [] && a[0] == b[0] {
      LessExactlyWhen(a[1..], b[1..]);
      forall k: nat ensures LessAt(a[1..], b[1..], k) <==> LessAt(a, b, k + 1) {
        if k < |a| && k + 1 < |b| {
          assert a[..k + 1] == [a[0]] + a[1..][..k] && b[..k + 1] == [b[0]] + b[1..][..k];
          assert a[1..][..k] == a[..k + 1][1..] && b[1..][..k] == b[..k + 1][1..];
        }
      }
      if k: nat :| LessAt(a, b, k) {
        if k > 0 { assert LessAt(a[1..], b[1..], k - 1); }
      }
      if k: nat :| LessAt(a[1..], b[1..], k) {
        assert LessAt(a, b, k + 1);
      }
    } else if k: nat :| LessAt(a, b, k) {
      if k > 0 {
        assert a[..k][0] == b[..k][0];
      }
    }
  }

  lemma {:induction false} LessIsTotal(a: string, b: string)
    ensures Less(a, b) || Less(b, a) || a == b
  {
    if a != [] && b != [] && a[0] == b[0] {
      LessIsTotal(a[1..], b[1..]);
      assert a == [a[0]] + a[1..] && b == [b[0]] + b[1..];
    }
  }

  lemma {:induction false} LessIsStrict(a: string, b: string)
    requires Less(a, b)
    ensures a != b && !Less(b, a)
  {
    if a != [] && a[0] == b[0] {
      LessIsStrict(a[1..], b[1..]);
    }
  }

  lemma {:induction false} LessIsTransitive(a: string, b: string, c: string)
    requires Less(a, b) && Less(b, c)
    ensures Less(a, c)
  {
    if a != [] && a[0] == b[0] == c[0] {
      LessIsTransitive(a[1..], b[1..], c[1..]);
    }
  }

  /** Insert `x`, which came before all of `v`, in front of everything with at most its key. */
  function Insert<T>(v: seq<T>, x: T, key: T -> int): seq<T> {
    if v == [] || key(v[0]) <= key(x) then [x] + v else [v[0]] + Insert(v[1..], x, key)
  }

  /** A stable sort by decreasing key. */
  function SortDescending<T>(v: seq<T>, key: T -> int): seq<T> {
    if v == [] then [] else Insert(SortDescending(v[1..], key), v[0], key)
  }

  ghost predicate Descending<T>(v: seq<T>, key: T -> int) {
    forall i, j | 0 <= i < j < |v| :: key(v[i]) >= key(v[j])
  }

  /** The elements that are kept. */
  function Filter<T>(v: seq<T>, keep: T -> bool): seq<T> {
    if v == [] then [] else if keep(v[0]) then [v[0]] + Filter(v[1..], keep) else Filter(v[1..], keep)
  }

  lemma {:induction false} FilterConcat<T>(v: seq<T>, w: seq<T>, keep: T -> bool)
    ensures Filter(v + w, keep) == Filter(v, keep) + Filter(w, keep)
  {
    if v == [] {
      assert v + w == w;
    } else {
      FilterConcat(v[1..], w, keep);
      assert (v + w)[1..] == v[1..] + w && (v + w)[0] == v[0];
      assert [v[0]] + (Filter(v[1..], keep) + Filter(w, keep)) == [v[0]] + Filter(v[1..], keep) + Filter(w, keep);
    }
  }

  /** Insertion keeps every property the elements and `x` share. */
  lemma {:induction false} InsertKeeps<T(!new)>(v: seq<T>, x: T, key: T -> int, p: T -> bool)
    requires p(x) && forall i | 0 <= i < |v| :: p(v[i])
    ensures forall i | 0 <= i < |Insert(v, x, key)| :: p(Insert(v, x, key)[i])
  {
    if v != [] && key(v[0]) > key(x) {
      InsertKeeps(v[1..], x, key, p);
    }
  }

  lemma {:induction false} InsertDescends<T(!new)>(v: seq<T>, x: T, key: T -> int)
    requires Descending(v, key)
    ensures Descending(Insert(v, x, key), key)
  {
    if v != [] && key(v[0]) > key(x) {
      InsertDescends(v[1..], x, key);
      InsertKeeps(v[1..], x, key, y => key(y) <= key(v[0]));
    }
  }

  lemma {:induction false} SortDescends<T(!new)>(v: seq<T>, key: T -> int)
    ensures Descending(SortDescending(v, key), key)
  {
    if v != [] {
      SortDescends(v[1..], key);
      InsertDescends(SortDescending(v[1..], key), v[0], key);
    }
  }

  /** What is kept of a list is not above what bounds the list. */
  lemma {:induction false} FilterBelow<T>(v: seq<T>, key: T -> int, keep: T -> bool, top: int)
    requires forall i | 0 <= i < |v| :: key(v[i]) <= top
    ensures Filter(v, keep) == [] || key(Filter(v, keep)[0]) <= top
  {
    if v != [] && !keep(v[0]) {
      FilterBelow(v[1..], key, keep, top);
    }
  }

  lemma {:induction false} InsertFilter<T>(v: seq<T>, x: T, key: T -> int, keep: T -> bool)
    requires Descending(v, key)
    ensures Filter(Insert(v, x, key), keep) == if keep(x) then Insert(Filter(v, keep), x, key) else Filter(v, keep)
  {
    if v == [] || key(v[0]) <= key(x) {
      FilterBelow(v, key, keep, key(x));
      assert ([x] + v)[1..] == v;
    } else {
      var r := Insert(v[1..], x, key);
      assert ([v[0]] + r)[1..] == r;
      InsertFilter(v[1..], x, key, keep);
      var f := Filter(v[1..], keep);
      assert ([v[0]] + f)[1..] == f;
    }
  }

  /** Sorting and leaving out commute, the sort being stable. */
  lemma {:induction false} SortFilter<T(!new)>(v: seq<T>, key: T -> int, keep: T -> bool)
    ensures SortDescending(Filter(v, keep), key) == Filter(SortDescending(v, key), keep)
  {
    if v != [] {
      var f := Filter(v[1..], keep);
      SortFilter(v[1..], key, keep);
      SortDescends(v[1..], key);
      InsertFilter(SortDescending(v[1..], key), v[0], key, keep);
      assert ([v[0]] + f)[1..] == f;
    }
  }

  lemma {:induction false} SortKeeps<T(!new)>(v: seq<T>, key: T -> int, p: T -> bool)
    requires forall i | 0 <= i < |v| :: p(v[i])
    ensures forall i | 0 <= i < |SortDescending(v, key)| :: p(SortDescending(v, key)[i])
  {
    if v != [] {
      SortKeeps(v[1..], key, p);
      InsertKeeps(SortDescending(v[1..], key), v[0], key, p);
    }
  }

  ghost predicate DistinctBy<T>(v: seq<T>, name: T -> string) {
    forall i, j | 0 <= i < j < |v| :: name(v[i]) != name(v[j])
  }

  lemma {:induction false} InsertDistinct<T(!new)>(v: seq<T>, x: T, key: T -> int, name: T -> string)
    requires DistinctBy(v, name) && forall i | 0 <= i < |v| :: name(v[i]) != name(x)
    ensures DistinctBy(Insert(v, x, key), name)
  {
    if v != [] && key(v[0]) > key(x) {
      InsertDistinct(v[1..], x, key, name);
      InsertKeeps(v[1..], x, key, y => name(y) != name(v[0]));
    }
  }

  lemma {:induction false} SortDistinct<T(!new)>(v: seq<T>, key: T -> int, name: T -> string)
    requires DistinctBy(v, name)
    ensures DistinctBy(SortDescending(v, key), name)
  {
    if v != [] {
      SortDistinct(v[1..], key, name);
      SortKeeps(v[1..], key, y => name(y) != name(v[0]));
      InsertDistinct(SortDescending(v[1..], key), v[0], key, name);
    }
  }

  lemma {:induction false} InsertIsPermutation<T>(v: seq<T>, x: T, key: T -> int)
    ensures multiset(Insert(v, x, key)) == multiset(v) + multiset{x}
  {
    if v != [] && key(v[0]) > key(x) {
      InsertIsPermutation(v[1..], x, key);
      assert v == [v[0]] + v[1..];
    }
  }

  lemma {:induction false} SortIsPermutation<T>(v: seq<T>, key: T -> int)
    ensures multiset(SortDescending(v, key)) == multiset(v)
  {
    if v != [] {
      SortIsPermutation(v[1..], key);
      InsertIsPermutation(SortDescending(v[1..], key), v[0], key);
      assert v == [v[0]] + v[1..];
    }
  }

  function HasKey<T>(key: T -> int, n: int): T -> bool {
    (x: T) => key(x) == n
  }

  lemma {:induction false} InsertInFront<T>(v: seq<T>, x: T, key: T -> int)
    requires v == [] || key(v[0]) <= key(x)
    ensures Insert(v, x, key) == [x] + v
  {
  }

  /** Elements of one key stay in the order they were in. */
  lemma {:induction false} SortIsStable<T(!new)>(v: seq<T>, key: T -> int, n: int)
    ensures Filter(SortDescending(v, key), HasKey(key, n)) == Filter(v, HasKey(key, n))
  {
    if v != [] {
      var keep := HasKey(key, n);
      SortIsStable(v[1..], key, n);
      SortDescends(v[1..], key);
      InsertFilter(SortDescending(v[1..], key), v[0], key, keep);
      if keep(v[0]) {
        FilterHolds(v[1..], keep);
        InsertInFront(Filter(v[1..], keep), v[0], key);
      }
    }
  }

  lemma {:induction false} FilterHolds<T>(v: seq<T>, keep: T -> bool)
    ensures forall i | 0 <= i < |Filter(v, keep)| :: keep(Filter(v, keep)[i])
  {
    if v != [] {
      FilterHolds(v[1..], keep);
    }
  }
}
