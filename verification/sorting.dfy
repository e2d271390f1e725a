/** Python's `list.sort(key=..., reverse=...)` and `sorted(...)` are stable sorts: the
    result is the unique ordering of the input that is sorted by the key and keeps the
    input order among elements whose keys are equal. Any stable sort computes it, so the
    model uses a stable insertion sort over a total preorder `le`, where `le(a, b)` says
    that `a` may be placed before `b` (for `reverse=True`, `le` compares keys with `>=`). */
module Sorting {
  import opened Seqs

  /** `le` is total and transitive; elements related both ways are ties. */
  ghost predicate TotalPreorder<T(!new)>(le: (T, T) -> bool) {
    && (forall a, b :: le(a, b) || le(b, a))
    && (forall a, b, c :: le(a, b) && le(b, c) ==> le(a, c))
  }

  predicate SortedBy<T>(s: seq<T>, le: (T, T) -> bool) {
    forall i, j :: 0 <= i < j < |s| ==> le(s[i], s[j])
  }

  predicate Tied<T>(a: T, b: T, le: (T, T) -> bool) {
    le(a, b) && le(b, a)
  }

  /** The elements of `s` tied with `y`, in their order in `s`. */
  function Ties<T>(s: seq<T>, y: T, le: (T, T) -> bool): (r: seq<T>)
    ensures |r| <= |s|
  {
    if s == [] then [] else (if Tied(s[0], y, le) then [s[0]] else []) + Ties(s[1..], y, le)
  }

  /** Inserts `x` after every element that may precede it, that is, after its ties. */
  function Insert<T>(x: T, s: seq<T>, le: (T, T) -> bool): (r: seq<T>)
    ensures multiset(r) == multiset(s) + multiset{x}
    ensures |r| == |s| + 1
  {
    if s == [] then [x]
    else if le(s[0], x) then
      assert s == [s[0]] + s[1..];
      [s[0]] + Insert(x, s[1..], le)
    else [x] + s
  }

  /** Stable insertion sort: the elements are inserted in input order. */
  function Sort<T>(s: seq<T>, le: (T, T) -> bool): (r: seq<T>)
    ensures multiset(r) == multiset(s)
    ensures |r| == |s|
  {
    if s == [] then []
    else
      assert s == s[..|s| - 1] + [s[|s| - 1]];
      Insert(s[|s| - 1], Sort(s[..|s| - 1], le), le)
  }

  /** The first `n` elements, or all of them when there are fewer (`s[:n]`). */
  function Take<T>(s: seq<T>, n: nat): (r: seq<T>)
    ensures |r| == if |s| < n then |s| else n
    ensures r == s[..|r|]
  {
    if |s| < n then s else s[..n]
  }

  lemma {:induction false} InsertSorted<T(!new)>(x: T, s: seq<T>, le: (T, T) -> bool)
    requires TotalPreorder(le) && SortedBy(s, le)
    ensures SortedBy(Insert(x, s, le), le)
  {
    if s != [] {
      if le(s[0], x) {
        var r := Insert(x, s[1..], le);
        InsertSorted(x, s[1..], le);
        forall z | z in r ensures le(s[0], z) {
          assert z in multiset(r);
        }
      } else {
        assert le(x, s[0]);
      }
    }
  }

  lemma {:induction false} SortSorted<T(!new)>(s: seq<T>, le: (T, T) -> bool)
    requires TotalPreorder(le)
    ensures SortedBy(Sort(s, le), le)
  {
    if s != [] {
      SortSorted(s[..|s| - 1], le);
      InsertSorted(s[|s| - 1], Sort(s[..|s| - 1], le), le);
    }
  }

  function TieOf<T>(z: T, y: T, le: (T, T) -> bool): seq<T> {
    if Tied(z, y, le) then [z] else []
  }

  lemma {:induction false} TiesCons<T>(a: T, r: seq<T>, y: T, le: (T, T) -> bool)
    ensures Ties([a] + r, y, le) == TieOf(a, y, le) + Ties(r, y, le)
  {
    assert ([a] + r)[0] == a && ([a] + r)[1..] == r;
  }

  lemma {:induction false} TiesAppend<T>(a: seq<T>, b: seq<T>, y: T, le: (T, T) -> bool)
    ensures Ties(a + b, y, le) == Ties(a, y, le) + Ties(b, y, le)
  {
    if a == [] {
      assert a + b == b;
    } else {
      assert a + b == [a[0]] + (a[1..] + b);
      TiesCons(a[0], a[1..] + b, y, le);
      TiesAppend(a[1..], b, y, le);
      TiesCons(a[0], a[1..], y, le);
      assert [a[0]] + a[1..] == a;
    }
  }

  lemma {:induction false} TiesNone<T>(s: seq<T>, y: T, le: (T, T) -> bool)
    requires forall z :: z in s ==> !Tied(z, y, le)
    ensures Ties(s, y, le) == []
  {
    if s != [] {
      TiesNone(s[1..], y, le);
      TiesCons(s[0], s[1..], y, le);
      assert [s[0]] + s[1..] == s;
    }
  }

  /** When `x` goes in front of a sorted `s`, nothing in `s` is tied with it. */
  lemma {:induction false} HeadBeforeTies<T(!new)>(x: T, s: seq<T>, y: T, le: (T, T) -> bool)
    requires TotalPreorder(le) && SortedBy(s, le)
    requires s != [] && !le(s[0], x) && Tied(x, y, le)
    ensures Ties(s, y, le) == []
  {
    forall z | z in s ensures !Tied(z, y, le) {
      var j :| 0 <= j < |s| && s[j] == z;
      assert le(s[0], s[j]);
    }
    TiesNone(s, y, le);
  }

  lemma {:induction false} InsertTiesFront<T(!new)>(x: T, s: seq<T>, y: T, le: (T, T) -> bool)
    requires TotalPreorder(le) && SortedBy(s, le)
    requires s != [] && !le(s[0], x)
    ensures Ties(Insert(x, s, le), y, le) == Ties(s, y, le) + TieOf(x, y, le)
  {
    assert Insert(x, s, le) == [x] + s;
    TiesCons(x, s, y, le);
    if Tied(x, y, le) {
      HeadBeforeTies(x, s, y, le);
    }
  }

  lemma {:induction false} InsertCons<T>(x: T, s: seq<T>, le: (T, T) -> bool)
    requires s != [] && le(s[0], x)
    ensures Insert(x, s, le) == [s[0]] + Insert(x, s[1..], le)
  {
  }

  lemma {:induction false} TiesUnfold<T>(s: seq<T>, y: T, le: (T, T) -> bool)
    requires s != []
    ensures Ties(s, y, le) == TieOf(s[0], y, le) + Ties(s[1..], y, le)
  {
  }

  lemma {:induction false} InsertTiesStep<T>(x: T, s: seq<T>, y: T, le: (T, T) -> bool)
    requires s != [] && le(s[0], x)
    requires Ties(Insert(x, s[1..], le), y, le) == Ties(s[1..], y, le) + TieOf(x, y, le)
    ensures Ties(Insert(x, s, le), y, le) == Ties(s, y, le) + TieOf(x, y, le)
  {
    InsertCons(x, s, le);
    TiesCons(s[0], Insert(x, s[1..], le), y, le);
    TiesUnfold(s, y, le);
    ConcatAssoc(TieOf(s[0], y, le), Ties(s[1..], y, le), TieOf(x, y, le));
  }

  lemma {:induction false} InsertTies<T(!new)>(x: T, s: seq<T>, y: T, le: (T, T) -> bool)
    requires TotalPreorder(le) && SortedBy(s, le)
    ensures Ties(Insert(x, s, le), y, le) == Ties(s, y, le) + TieOf(x, y, le)
  {
    if s == [] {
      assert Insert(x, s, le) == [x] + [];
      TiesCons(x, [], y, le);
    } else if le(s[0], x) {
      assert SortedBy(s[1..], le);
      InsertTies(x, s[1..], y, le);
      InsertTiesStep(x, s, y, le);
    } else {
      InsertTiesFront(x, s, y, le);
    }
  }

  lemma TiesSingle<T>(x: T, y: T, le: (T, T) -> bool)
    ensures Ties([x], y, le) == TieOf(x, y, le)
  {
    assert [x][1..] == [];
  }

  /** The inductive step of `SortStable`: inserting the last element keeps the ties. */
  lemma SortStableStep<T>(init: seq<T>, last: T, y: T, le: (T, T) -> bool)
    requires Ties(Insert(last, Sort(init, le), le), y, le) == Ties(init, y, le) + TieOf(last, y, le)
    ensures Ties(Sort(init + [last], le), y, le) == Ties(init + [last], y, le)
  {
    var s := init + [last];
    assert s[..|s| - 1] == init && s[|s| - 1] == last;
    assert Sort(s, le) == Insert(last, Sort(init, le), le);
    TiesAppend(init, [last], y, le);
    TiesSingle(last, y, le);
  }

  /** Inserting into a sorted list appends the new element to its ties. */
  lemma InsertSortedTies<T(!new)>(x: T, s: seq<T>, y: T, le: (T, T) -> bool)
    requires TotalPreorder(le)
    ensures Ties(Insert(x, Sort(s, le), le), y, le) == Ties(Sort(s, le), y, le) + TieOf(x, y, le)
  {
    SortSorted(s, le);
    InsertTies(x, Sort(s, le), y, le);
  }

  /** Stability: among the elements tied with any `y`, the sorted order is the input order. */
  lemma {:induction false} SortStable<T(!new)>(s: seq<T>, y: T, le: (T, T) -> bool)
    requires TotalPreorder(le)
    ensures Ties(Sort(s, le), y, le) == Ties(s, y, le)
  {
    if s != [] {
      var init, last := s[..|s| - 1], s[|s| - 1];
      SortStable(init, y, le);
      InsertSortedTies(last, init, y, le);
      assert s == init + [last];
      SortStableStep(init, last, y, le);
    }
  }

  /** No two elements share a key. */
  ghost predicate KeysDistinct<T, K>(s: seq<T>, key: T -> K) {
    forall i, j :: 0 <= i < j < |s| ==> key(s[i]) != key(s[j])
  }

  lemma ConsKeysDistinct<T, K>(a: T, r: seq<T>, key: T -> K)
    requires KeysDistinct(r, key)
    requires forall z :: z in r ==> key(z) != key(a)
    ensures KeysDistinct([a] + r, key)
  {
    forall i, j | 0 <= i < j < |r| + 1 ensures key(([a] + r)[i]) != key(([a] + r)[j]) {
      assert ([a] + r)[j] == r[j - 1];
      if i > 0 {
        assert ([a] + r)[i] == r[i - 1];
      }
    }
  }

  lemma {:induction false} InsertKeepsKeysDistinct<T, K>(x: T, s: seq<T>, key: T -> K, le: (T, T) -> bool)
    requires KeysDistinct(s, key)
    requires forall z :: z in s ==> key(z) != key(x)
    ensures KeysDistinct(Insert(x, s, le), key)
  {
    if s == [] {
      assert Insert(x, s, le) == [x];
    } else if le(s[0], x) {
      var r := Insert(x, s[1..], le);
      assert Insert(x, s, le) == [s[0]] + r;
      assert KeysDistinct(s[1..], key);
      InsertKeepsKeysDistinct(x, s[1..], key, le);
      forall z | z in r ensures key(z) != key(s[0]) {
        assert z in multiset(r);
        if z != x {
          assert z in multiset(s[1..]);
          var k :| 0 <= k < |s[1..]| && s[1..][k] == z;
          assert s[k + 1] == z;
        }
      }
      ConsKeysDistinct(s[0], r, key);
    } else {
      assert Insert(x, s, le) == [x] + s;
      ConsKeysDistinct(x, s, key);
    }
  }

  /** Sorting a list whose keys are pairwise distinct keeps them pairwise distinct. */
  lemma {:induction false} SortKeepsKeysDistinct<T, K>(s: seq<T>, key: T -> K, le: (T, T) -> bool)
    requires KeysDistinct(s, key)
    ensures KeysDistinct(Sort(s, le), key)
  {
    if s != [] {
      var init, last := s[..|s| - 1], s[|s| - 1];
      SortKeepsKeysDistinct(init, key, le);
      forall z | z in Sort(init, le) ensures key(z) != key(last) {
        assert z in multiset(Sort(init, le));
        var k :| 0 <= k < |init| && init[k] == z;
      }
      InsertKeepsKeysDistinct(last, Sort(init, le), key, le);
    }
  }
}
