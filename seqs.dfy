/**
 * The dataframe operations the dashboard chains together, over sequences of rows:
 * a boolean-mask selection (Filter), a sort on one column (SortBy, stable),
 * `drop_duplicates(keep="last")` / `groupby(...).tail(1)` (KeepLast) and
 * `groupby(...).head(1)` (KeepFirst), plus Python's `zip`.
 */
module Seqs {
  import opened Wrappers

  // ---------------------------------------------------------------------------
  // Selection by a boolean mask
  // ---------------------------------------------------------------------------

  /** The rows of `s` for which `keep` holds, in their original order. */
  function Filter<T(==,!new)>(s: seq<T>, keep: T -> bool): (r: seq<T>)
    ensures |r| <= |s|
    ensures forall x :: x in r <==> x in s && keep(x)
  {
    if s == [] then []
    else
      assert s == [s[0]] + s[1..];
      (if keep(s[0]) then [s[0]] else []) + Filter(s[1..], keep)
  }

  /** Selection distributes over concatenation: relative order is kept, nothing is reordered. */
  lemma {:induction false} FilterConcat<T(!new)>(a: seq<T>, b: seq<T>, keep: T -> bool)
    ensures Filter(a + b, keep) == Filter(a, keep) + Filter(b, keep)
  {
    if a == [] {
      assert a + b == b;
    } else {
      assert (a + b)[0] == a[0];
      assert (a + b)[1..] == a[1..] + b;
      FilterConcat(a[1..], b, keep);
    }
  }

  /** Selection drops exactly the rows the mask rejects: every kept row keeps its multiplicity. */
  lemma {:induction false} FilterMultiset<T(!new)>(s: seq<T>, keep: T -> bool)
    ensures forall x :: multiset(Filter(s, keep))[x] == if keep(x) then multiset(s)[x] else 0
  {
    if s != [] {
      assert s == [s[0]] + s[1..];
      FilterMultiset(s[1..], keep);
    }
  }

  /** Two masks that agree on every row select the same rows. */
  lemma {:induction false} FilterSameMask<T(!new)>(s: seq<T>, p: T -> bool, q: T -> bool)
    requires forall x :: p(x) == q(x)
    ensures Filter(s, p) == Filter(s, q)
  {
    if s != [] {
      FilterSameMask(s[1..], p, q);
    }
  }

  /** A mask that every row passes selects the whole sequence. */
  lemma {:induction false} FilterKeepsAll<T(!new)>(s: seq<T>, keep: T -> bool)
    requires forall x :: x in s ==> keep(x)
    ensures Filter(s, keep) == s
  {
    if s != [] {
      assert forall x :: x in s[1..] ==> x in s;
      FilterKeepsAll(s[1..], keep);
    }
  }

  // ---------------------------------------------------------------------------
  // Keys
  // ---------------------------------------------------------------------------

  /** The mask "column `key` equals `k`". */
  function KeyIs<T(==,!new), K(==)>(key: T -> K, k: K): T -> bool
  {
    x => key(x) == k
  }

  /** Some row of `s` has key `k`. */
  predicate HasKey<T(==,!new), K(==)>(s: seq<T>, key: T -> K, k: K)
  {
    exists x | x in s :: key(x) == k
  }

  /** No two rows of `s` share a key. */
  ghost predicate UniqueKeys<T(!new), K>(s: seq<T>, key: T -> K)
  {
    forall i, j :: 0 <= i < j < |s| ==> key(s[i]) != key(s[j])
  }

  /** The distinct keys present in `s`. */
  ghost function KeySet<T, K>(s: seq<T>, key: T -> K): set<K>
  {
    set x | x in s :: key(x)
  }

  // ---------------------------------------------------------------------------
  // Python's zip
  // ---------------------------------------------------------------------------

  /** Pairs the elements of `a` and `b` index-wise, stopping at the shorter one. */
  function Zip<A, B>(a: seq<A>, b: seq<B>): (r: seq<(A, B)>)
    ensures |r| == if |a| <= |b| then |a| else |b|
    ensures forall i :: 0 <= i < |r| ==> r[i] == (a[i], b[i])
  {
    if a == [] || b == [] then [] else [(a[0], b[0])] + Zip(a[1..], b[1..])
  }

  // ---------------------------------------------------------------------------
  // Stable sort on one column
  // ---------------------------------------------------------------------------

  /** `s` is in ascending order of `rank`. */
  ghost predicate SortedBy<T(!new)>(s: seq<T>, rank: T -> real)
  {
    forall i, j :: 0 <= i < j < |s| ==> rank(s[i]) <= rank(s[j])
  }

  /** Inserts `x` into `q` after every element whose rank is at most that of `x`. */
  function InsertLast<T(==,!new)>(q: seq<T>, x: T, rank: T -> real): (r: seq<T>)
    ensures |r| == |q| + 1
    ensures multiset(r) == multiset(q) + multiset{x}
    ensures forall y :: y in r ==> y in q || y == x
  {
    if q == [] || rank(q[|q| - 1]) <= rank(x) then
      q + [x]
    else
      var init, last := q[..|q| - 1], q[|q| - 1];
      assert q == init + [last];
      InsertLast(init, x, rank) + [last]
  }

  /** Inserting into a sorted sequence keeps it sorted. */
  lemma {:induction false} InsertLastSorted<T(!new)>(q: seq<T>, x: T, rank: T -> real)
    requires SortedBy(q, rank)
    ensures SortedBy(InsertLast(q, x, rank), rank)
  {
    if q == [] || rank(q[|q| - 1]) <= rank(x) {
      SortedSnoc(q, x, rank);
    } else {
      var init, last := q[..|q| - 1], q[|q| - 1];
      assert q == init + [last];
      assert SortedBy(init, rank) by {
        forall i, j | 0 <= i < j < |init| ensures rank(init[i]) <= rank(init[j]) {
          assert init[i] == q[i] && init[j] == q[j];
        }
      }
      InsertLastSorted(init, x, rank);
      var front := InsertLast(init, x, rank);
      forall y | y in front ensures rank(y) <= rank(last) {
        if y != x {
          var i :| 0 <= i < |init| && init[i] == y;
          assert q[i] == y;
        }
      }
      SortedSnoc(front, last, rank);
    }
  }

  /** Appending an element no smaller than any other to a sorted sequence keeps it sorted. */
  lemma SortedSnoc<T(!new)>(r: seq<T>, x: T, rank: T -> real)
    requires SortedBy(r, rank)
    requires forall y :: y in r ==> rank(y) <= rank(x)
    ensures SortedBy(r + [x], rank)
  {
    var q := r + [x];
    forall i, j | 0 <= i < j < |q| ensures rank(q[i]) <= rank(q[j]) {
      assert q[i] == r[i];
      if j < |r| {
        assert q[j] == r[j];
      }
    }
  }

  /** Sorts `s` in ascending order of `rank`; rows of equal rank keep their input order. */
  function SortBy<T(==,!new)>(s: seq<T>, rank: T -> real): (r: seq<T>)
    ensures |r| == |s|
    ensures multiset(r) == multiset(s)
    ensures SortedBy(r, rank)
  {
    if s == [] then []
    else
      assert s == s[..|s| - 1] + [s[|s| - 1]];
      InsertLastSorted(SortBy(s[..|s| - 1], rank), s[|s| - 1], rank);
      InsertLast(SortBy(s[..|s| - 1], rank), s[|s| - 1], rank)
  }

  /** Sorting neither adds nor loses rows. */
  lemma SortByMembers<T(!new)>(s: seq<T>, rank: T -> real)
    ensures forall x :: x in SortBy(s, rank) <==> x in s
  {
    var r := SortBy(s, rank);
    assert forall x :: x in r <==> x in multiset(r);
    assert forall x :: x in s <==> x in multiset(s);
  }

  lemma {:induction false} InsertLastStable<T(!new)>(q: seq<T>, x: T, rank: T -> real, c: real)
    ensures Filter(InsertLast(q, x, rank), KeyIs(rank, c))
         == Filter(q, KeyIs(rank, c)) + Filter([x], KeyIs(rank, c))
  {
    if q == [] || rank(q[|q| - 1]) <= rank(x) {
      FilterConcat(q, [x], KeyIs(rank, c));
    } else {
      var init, last := q[..|q| - 1], q[|q| - 1];
      assert q == init + [last];
      InsertLastStable(init, x, rank, c);
      InsertPastLast(init, last, x, rank, c);
    }
  }

  /** One step of InsertLastStable: `x` moves left past a `last` of larger rank. */
  lemma InsertPastLast<T(!new)>(init: seq<T>, last: T, x: T, rank: T -> real, c: real)
    requires rank(x) < rank(last)
    requires Filter(InsertLast(init, x, rank), KeyIs(rank, c))
          == Filter(init, KeyIs(rank, c)) + Filter([x], KeyIs(rank, c))
    ensures Filter(InsertLast(init + [last], x, rank), KeyIs(rank, c))
         == Filter(init + [last], KeyIs(rank, c)) + Filter([x], KeyIs(rank, c))
  {
    var keep := KeyIs(rank, c);
    var q := init + [last];
    assert q[..|q| - 1] == init && q[|q| - 1] == last;
    var fi, fl, fx := Filter(init, keep), Filter([last], keep), Filter([x], keep);
    assert Filter(InsertLast(q, x, rank), keep) == fi + fx + fl by {
      assert InsertLast(q, x, rank) == InsertLast(init, x, rank) + [last];
      FilterConcat(InsertLast(init, x, rank), [last], keep);
    }
    assert Filter(q, keep) == fi + fl by {
      FilterConcat(init, [last], keep);
    }
    assert fl == [] || fx == [] by {
      assert rank(x) == c ==> !keep(last);
    }
    SwapPastEmpty(fi, fx, fl);
  }

  /** Two pieces commute when one of them is empty. */
  lemma SwapPastEmpty<T>(a: seq<T>, b: seq<T>, c: seq<T>)
    requires b == [] || c == []
    ensures a + b + c == a + c + b
  {
  }

  /** Stability: the rows of any one rank come out of the sort in their input order. */
  lemma {:induction false} SortStable<T(!new)>(s: seq<T>, rank: T -> real, c: real)
    ensures Filter(SortBy(s, rank), KeyIs(rank, c)) == Filter(s, KeyIs(rank, c))
  {
    if s != [] {
      var init, last := s[..|s| - 1], s[|s| - 1];
      assert s == init + [last];
      SortStable(init, rank, c);
      InsertLastStable(SortBy(init, rank), last, rank, c);
      FilterConcat(init, [last], KeyIs(rank, c));
    }
  }

  /** Sorting an already sorted sequence changes nothing. */
  lemma {:induction false} SortSortedIsIdentity<T(!new)>(s: seq<T>, rank: T -> real)
    requires SortedBy(s, rank)
    ensures SortBy(s, rank) == s
  {
    if s != [] {
      var init, last := s[..|s| - 1], s[|s| - 1];
      assert s == init + [last];
      assert SortedBy(init, rank);
      SortSortedIsIdentity(init, rank);
    }
  }

  /** `s` is in strictly ascending order of `rank`: sorted, with no rank twice. */
  ghost predicate StrictlySortedBy<T(!new)>(s: seq<T>, rank: T -> real)
  {
    forall i, j :: 0 <= i < j < |s| ==> rank(s[i]) < rank(s[j])
  }

  /**
   * A sorted order with no rank twice is the only sorted order of its rows: any sorted
   * rearrangement of the same rows is the same sequence.
   */
  lemma {:induction false} SortedPermutationUnique<T(!new)>(a: seq<T>, b: seq<T>, rank: T -> real)
    requires StrictlySortedBy(a, rank)
    requires SortedBy(b, rank)
    requires multiset(a) == multiset(b)
    ensures a == b
  {
    assert |a| == |multiset(a)| == |multiset(b)| == |b|;
    if a != [] {
      SortedHeadsAgree(a, b, rank);
      assert a == [a[0]] + a[1..] && b == [b[0]] + b[1..];
      assert multiset(a[1..]) == multiset(b[1..]) by {
        assert multiset(a) == multiset{a[0]} + multiset(a[1..]);
        assert multiset(b) == multiset{a[0]} + multiset(b[1..]);
        assert multiset(a[1..]) == multiset(a) - multiset{a[0]};
        assert multiset(b[1..]) == multiset(b) - multiset{a[0]};
      }
      SortedTails(a, b, rank);
      SortedPermutationUnique(a[1..], b[1..], rank);
    }
  }

  /** Dropping the first row keeps a sequence sorted, and strictly sorted. */
  lemma SortedTails<T(!new)>(a: seq<T>, b: seq<T>, rank: T -> real)
    requires StrictlySortedBy(a, rank) && SortedBy(b, rank)
    requires a != [] && b != []
    ensures StrictlySortedBy(a[1..], rank) && SortedBy(b[1..], rank)
  {
    forall i, j | 0 <= i < j < |a[1..]| ensures rank(a[1..][i]) < rank(a[1..][j]) {
      assert a[1..][i] == a[i + 1] && a[1..][j] == a[j + 1];
    }
    forall i, j | 0 <= i < j < |b[1..]| ensures rank(b[1..][i]) <= rank(b[1..][j]) {
      assert b[1..][i] == b[i + 1] && b[1..][j] == b[j + 1];
    }
  }

  /** Two sorted arrangements of the same non-empty rows, one with no rank twice, start alike. */
  lemma SortedHeadsAgree<T(!new)>(a: seq<T>, b: seq<T>, rank: T -> real)
    requires StrictlySortedBy(a, rank)
    requires SortedBy(b, rank)
    requires multiset(a) == multiset(b)
    requires a != [] && b != []
    ensures a[0] == b[0]
  {
    assert a[0] in multiset(b) && b[0] in multiset(a);
    var m :| 0 <= m < |b| && b[m] == a[0];
    var k :| 0 <= k < |a| && a[k] == b[0];
    assert rank(b[0]) <= rank(b[m]);
  }

  // ---------------------------------------------------------------------------
  // Last / first row per key
  // ---------------------------------------------------------------------------

  /** The last row of `s` whose key is `k`, if any. */
  function LastOf<T(==,!new), K(==)>(s: seq<T>, key: T -> K, k: K): (r: Option<T>)
    ensures r.Some? <==> HasKey(s, key, k)
    ensures r.Some? ==> r.value in s && key(r.value) == k
  {
    if s == [] then None
    else
      assert s == s[..|s| - 1] + [s[|s| - 1]];
      if key(s[|s| - 1]) == k then Some(s[|s| - 1]) else LastOf(s[..|s| - 1], key, k)
  }

  /** The first row of `s` whose key is `k`, if any. */
  function FirstOf<T(==,!new), K(==)>(s: seq<T>, key: T -> K, k: K): (r: Option<T>)
    ensures r.Some? <==> HasKey(s, key, k)
    ensures r.Some? ==> r.value in s && key(r.value) == k
  {
    if s == [] then None
    else
      assert s == [s[0]] + s[1..];
      if key(s[0]) == k then Some(s[0]) else FirstOf(s[1..], key, k)
  }

  /** Looking for the last row of a key from the front: a row wins unless a later one has its key. */
  lemma {:induction false} LastOfCons<T(!new), K>(x: T, s: seq<T>, key: T -> K, k: K)
    ensures LastOf([x] + s, key, k)
         == if HasKey(s, key, k) then LastOf(s, key, k) else if key(x) == k then Some(x) else None
  {
    if s == [] {
      assert [x] + s == [x];
      assert [x][..0] == [];
    } else {
      var init, last := s[..|s| - 1], s[|s| - 1];
      assert s == init + [last];
      assert ([x] + s)[..|[x] + s| - 1] == [x] + init;
      LastOfCons(x, init, key, k);
    }
  }

  /** Looking for the first row of a key from the back: a row wins unless an earlier one has its key. */
  lemma {:induction false} FirstOfSnoc<T(!new), K>(s: seq<T>, x: T, key: T -> K, k: K)
    ensures FirstOf(s + [x], key, k)
         == if HasKey(s, key, k) then FirstOf(s, key, k) else if key(x) == k then Some(x) else None
  {
    if s == [] {
      assert s + [x] == [x];
      assert [x][1..] == [];
    } else {
      assert (s + [x])[0] == s[0];
      assert (s + [x])[1..] == s[1..] + [x];
      assert s == [s[0]] + s[1..];
      FirstOfSnoc(s[1..], x, key, k);
    }
  }

  /** `drop_duplicates(keep="last")` on a key: keeps a row iff no later row has its key. */
  function KeepLast<T(==,!new), K(==)>(s: seq<T>, key: T -> K): (r: seq<T>)
    ensures |r| <= |s|
    ensures forall y :: y in r ==> y in s
    ensures UniqueKeys(r, key)
    ensures forall x :: x in s ==> HasKey(r, key, key(x))
  {
    if s == [] then []
    else
      assert s == [s[0]] + s[1..];
      if HasKey(s[1..], key, key(s[0])) then KeepLast(s[1..], key)
      else [s[0]] + KeepLast(s[1..], key)
  }

  /** `groupby(key).head(1)`: keeps a row iff no earlier row has its key. */
  function KeepFirst<T(==,!new), K(==)>(s: seq<T>, key: T -> K): (r: seq<T>)
    ensures |r| <= |s|
    ensures forall y :: y in r ==> y in s
    ensures UniqueKeys(r, key)
    ensures forall x :: x in s ==> HasKey(r, key, key(x))
  {
    if s == [] then []
    else
      var init, last := s[..|s| - 1], s[|s| - 1];
      assert s == init + [last];
      if HasKey(init, key, key(last)) then KeepFirst(init, key)
      else KeepFirst(init, key) + [last]
  }

  /** Each row KeepLast keeps is the last row of the input with its key. */
  lemma {:induction false} KeepLastPicksLast<T(!new), K>(s: seq<T>, key: T -> K)
    ensures forall y :: y in KeepLast(s, key) ==> LastOf(s, key, key(y)) == Some(y)
  {
    if s != [] {
      assert s == [s[0]] + s[1..];
      KeepLastPicksLast(s[1..], key);
      forall y | y in KeepLast(s, key)
        ensures LastOf(s, key, key(y)) == Some(y)
      {
        LastOfCons(s[0], s[1..], key, key(y));
      }
    }
  }

  /** Each row KeepFirst keeps is the first row of the input with its key. */
  lemma {:induction false} KeepFirstPicksFirst<T(!new), K>(s: seq<T>, key: T -> K)
    ensures forall y :: y in KeepFirst(s, key) ==> FirstOf(s, key, key(y)) == Some(y)
  {
    if s != [] {
      var init, last := s[..|s| - 1], s[|s| - 1];
      assert s == init + [last];
      KeepFirstPicksFirst(init, key);
      forall y | y in KeepFirst(s, key)
        ensures FirstOf(s, key, key(y)) == Some(y)
      {
        FirstOfSnoc(init, last, key, key(y));
      }
    }
  }

  /** On rows whose keys are already unique, KeepLast changes nothing. */
  lemma {:induction false} KeepLastUniqueIsIdentity<T(!new), K>(s: seq<T>, key: T -> K)
    requires UniqueKeys(s, key)
    ensures KeepLast(s, key) == s
  {
    if s != [] {
      assert s == [s[0]] + s[1..];
      assert !HasKey(s[1..], key, key(s[0])) by {
        forall x | x in s[1..] ensures key(x) != key(s[0]) {
          var j :| 0 <= j < |s[1..]| && s[1..][j] == x;
          assert s[j + 1] == x;
        }
      }
      assert UniqueKeys(s[1..], key) by {
        forall i, j | 0 <= i < j < |s[1..]| ensures key(s[1..][i]) != key(s[1..][j]) {
          assert s[1..][i] == s[i + 1] && s[1..][j] == s[j + 1];
        }
      }
      KeepLastUniqueIsIdentity(s[1..], key);
    }
  }

  /** KeepLast keeps the order of what it keeps, so sorted input gives sorted output. */
  lemma {:induction false} KeepLastKeepsSorted<T(!new), K>(s: seq<T>, key: T -> K, rank: T -> real)
    requires SortedBy(s, rank)
    ensures SortedBy(KeepLast(s, key), rank)
  {
    if s != [] {
      var rest := s[1..];
      assert SortedBy(rest, rank) by {
        forall i, j | 0 <= i < j < |rest| ensures rank(rest[i]) <= rank(rest[j]) {
          assert rest[i] == s[i + 1] && rest[j] == s[j + 1];
        }
      }
      assert forall y :: y in rest ==> rank(s[0]) <= rank(y) by {
        forall y | y in rest ensures rank(s[0]) <= rank(y) {
          var j :| 0 <= j < |rest| && rest[j] == y;
          assert s[j + 1] == y;
        }
      }
      KeepLastKeepsSorted(rest, key, rank);
      if !HasKey(rest, key, key(s[0])) {
        SortedCons(s[0], KeepLast(rest, key), rank);
      }
    }
  }

  /** Putting an element no larger than any other in front of a sorted sequence keeps it sorted. */
  lemma SortedCons<T(!new)>(x: T, r: seq<T>, rank: T -> real)
    requires SortedBy(r, rank)
    requires forall y :: y in r ==> rank(x) <= rank(y)
    ensures SortedBy([x] + r, rank)
  {
    var q := [x] + r;
    forall i, j | 0 <= i < j < |q| ensures rank(q[i]) <= rank(q[j]) {
      assert q[j] == r[j - 1];
      if i > 0 {
        assert q[i] == r[i - 1];
      }
    }
  }

  /** Filtering down to one key does not change which row is the last of that key. */
  lemma {:induction false} LastOfFiltered<T(!new), K>(s: seq<T>, key: T -> K, k: K)
    ensures LastOf(Filter(s, KeyIs(key, k)), key, k) == LastOf(s, key, k)
  {
    if s != [] {
      var init, last := s[..|s| - 1], s[|s| - 1];
      assert s == init + [last];
      FilterConcat(init, [last], KeyIs(key, k));
      LastOfFiltered(init, key, k);
      if key(last) == k {
        assert Filter([last], KeyIs(key, k)) == [last];
      } else {
        assert Filter([last], KeyIs(key, k)) == [];
        assert Filter(init, KeyIs(key, k)) + [] == Filter(init, KeyIs(key, k));
      }
    }
  }

  /** In a sequence sorted by rank, the last row of a key has the largest rank of that key. */
  lemma {:induction false} LastOfSortedIsMax<T(!new), K>(s: seq<T>, key: T -> K, rank: T -> real, k: K)
    requires SortedBy(s, rank)
    requires HasKey(s, key, k)
    ensures forall x :: x in s && key(x) == k ==> rank(x) <= rank(LastOf(s, key, k).value)
  {
    var init, last := s[..|s| - 1], s[|s| - 1];
    assert s == init + [last];
    if key(last) != k {
      assert SortedBy(init, rank);
      assert forall x :: x in s && key(x) == k ==> x in init;
      LastOfSortedIsMax(init, key, rank, k);
    }
  }

  /** In a sequence sorted by rank, the first row of a key has the smallest rank of that key. */
  lemma {:induction false} FirstOfSortedIsMin<T(!new), K>(s: seq<T>, key: T -> K, rank: T -> real, k: K)
    requires SortedBy(s, rank)
    requires HasKey(s, key, k)
    ensures forall x :: x in s && key(x) == k ==> rank(FirstOf(s, key, k).value) <= rank(x)
  {
    var rest := s[1..];
    assert s == [s[0]] + rest;
    if key(s[0]) != k {
      assert SortedBy(rest, rank) by {
        forall i, j | 0 <= i < j < |rest| ensures rank(rest[i]) <= rank(rest[j]) {
          assert rest[i] == s[i + 1] && rest[j] == s[j + 1];
        }
      }
      assert forall x :: x in s && key(x) == k ==> x in rest;
      FirstOfSortedIsMin(rest, key, rank, k);
    }
  }

  /** On sorted input, every row KeepLast keeps has the largest rank among the rows of its key. */
  lemma KeepLastSortedIsMax<T(!new), K>(s: seq<T>, key: T -> K, rank: T -> real)
    requires SortedBy(s, rank)
    ensures forall y, x :: y in KeepLast(s, key) && x in s && key(x) == key(y) ==> rank(x) <= rank(y)
  {
    KeepLastPicksLast(s, key);
    forall y | y in KeepLast(s, key)
      ensures forall x :: x in s && key(x) == key(y) ==> rank(x) <= rank(y)
    {
      LastOfSortedIsMax(s, key, rank, key(y));
    }
  }

  /** On sorted input, every row KeepFirst keeps has the smallest rank among the rows of its key. */
  lemma KeepFirstSortedIsMin<T(!new), K>(s: seq<T>, key: T -> K, rank: T -> real)
    requires SortedBy(s, rank)
    ensures forall y, x :: y in KeepFirst(s, key) && x in s && key(x) == key(y) ==> rank(y) <= rank(x)
  {
    KeepFirstPicksFirst(s, key);
    forall y | y in KeepFirst(s, key)
      ensures forall x :: x in s && key(x) == key(y) ==> rank(y) <= rank(x)
    {
      FirstOfSortedIsMin(s, key, rank, key(y));
    }
  }

  // ---------------------------------------------------------------------------
  // The two "one row per key" pipelines, end to end
  // ---------------------------------------------------------------------------

  /**
   * Sort by `rank`, then keep the last row of each key: the result holds only input rows,
   * exactly one per key present in the input, in rank order, each of the largest rank of its key.
   */
  lemma SortThenKeepLast<T(!new), K>(s: seq<T>, rank: T -> real, key: T -> K)
    ensures forall y :: y in KeepLast(SortBy(s, rank), key) ==> y in s
    ensures UniqueKeys(KeepLast(SortBy(s, rank), key), key)
    ensures KeySet(KeepLast(SortBy(s, rank), key), key) == KeySet(s, key)
    ensures SortedBy(KeepLast(SortBy(s, rank), key), rank)
    ensures forall y, x :: y in KeepLast(SortBy(s, rank), key) && x in s && key(x) == key(y) ==>
              rank(x) <= rank(y)
  {
    var sorted := SortBy(s, rank);
    var r := KeepLast(sorted, key);
    SortByMembers(s, rank);
    KeepLastKeepsSorted(sorted, key, rank);
    KeepLastSortedIsMax(sorted, key, rank);
    forall k | k in KeySet(s, key) ensures k in KeySet(r, key) {
      var x :| x in s && key(x) == k;
      assert x in sorted;
      assert HasKey(r, key, k);
      var y :| y in r && key(y) == k;
    }
    forall k | k in KeySet(r, key) ensures k in KeySet(s, key) {
      var y :| y in r && key(y) == k;
      assert y in s;
    }
  }

  /**
   * Sort by `rank`, then keep the first row of each key: the result holds only input rows,
   * exactly one per key present in the input, each of the smallest rank of its key.
   */
  lemma SortThenKeepFirst<T(!new), K>(s: seq<T>, rank: T -> real, key: T -> K)
    ensures forall y :: y in KeepFirst(SortBy(s, rank), key) ==> y in s
    ensures UniqueKeys(KeepFirst(SortBy(s, rank), key), key)
    ensures KeySet(KeepFirst(SortBy(s, rank), key), key) == KeySet(s, key)
    ensures forall y, x :: y in KeepFirst(SortBy(s, rank), key) && x in s && key(x) == key(y) ==>
              rank(y) <= rank(x)
  {
    var sorted := SortBy(s, rank);
    var r := KeepFirst(sorted, key);
    SortByMembers(s, rank);
    KeepFirstSortedIsMin(sorted, key, rank);
    forall k | k in KeySet(s, key) ensures k in KeySet(r, key) {
      var x :| x in s && key(x) == k;
      assert x in sorted;
      assert HasKey(r, key, k);
      var y :| y in r && key(y) == k;
    }
    forall k | k in KeySet(r, key) ensures k in KeySet(s, key) {
      var y :| y in r && key(y) == k;
      assert y in s;
    }
  }
}
