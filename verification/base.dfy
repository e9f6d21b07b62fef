/** Small shared vocabulary: an Option type, counting and filtering over sequences,
    lookup of rows by a numeric key, the cardinality of an image set, and an
    insertion sort over a caller-supplied ordering. */
module Base {

  datatype Option<+T> = None | Some(value: T)

  /** Number of elements of `s` for which `p` holds (SQL `COUNT(CASE WHEN p THEN 1 END)`). */
  function Count<T>(s: seq<T>, p: T -> bool): (n: nat)
    ensures n <= |s|
    ensures n == 0 <==> forall i | 0 <= i < |s| :: !p(s[i])
  {
    if s == [] then 0 else (if p(s[0]) then 1 else 0) + Count(s[1..], p)
  }

  /** `[f(x) for x in s]`. */
  function MapSeq<T, U>(s: seq<T>, f: T -> U): (r: seq<U>)
    ensures |r| == |s|
    ensures forall i | 0 <= i < |s| :: r[i] == f(s[i])
  {
    seq(|s|, i requires 0 <= i < |s| => f(s[i]))
  }

  lemma MapConcat<T, U>(a: seq<T>, b: seq<T>, f: T -> U)
    ensures MapSeq(a + b, f) == MapSeq(a, f) + MapSeq(b, f)
  {
    forall i | 0 <= i < |a + b| ensures MapSeq(a + b, f)[i] == (MapSeq(a, f) + MapSeq(b, f))[i] {
      if i < |a| {
        assert (a + b)[i] == a[i];
      } else {
        assert (a + b)[i] == b[i - |a|];
      }
    }
  }

  lemma MapTail<T, U>(s: seq<T>, f: T -> U)
    requires s != []
    ensures MapSeq(s, f)[1..] == MapSeq(s[1..], f)
  {
    forall i | 0 <= i < |s| - 1 ensures MapSeq(s, f)[1..][i] == MapSeq(s[1..], f)[i] {
      assert s[1..][i] == s[i + 1];
    }
  }

  lemma {:induction false} CountConcat<T>(a: seq<T>, b: seq<T>, p: T -> bool)
    ensures Count(a + b, p) == Count(a, p) + Count(b, p)
  {
    if a == [] {
      assert a + b == b;
    } else {
      assert (a + b)[1..] == a[1..] + b;
      CountConcat(a[1..], b, p);
    }
  }

  /** The elements satisfying `p` and those that do not together make up the whole sequence. */
  lemma {:induction false} CountSplit<T>(s: seq<T>, p: T -> bool, q: T -> bool)
    requires forall x :: q(x) == !p(x)
    ensures Count(s, p) + Count(s, q) == |s|
  {
    if s != [] {
      CountSplit(s[1..], p, q);
    }
  }

  /** A predicate implied by another is counted at least as often. */
  lemma {:induction false} CountMonotone<T>(s: seq<T>, p: T -> bool, q: T -> bool)
    requires forall x :: p(x) ==> q(x)
    ensures Count(s, p) <= Count(s, q)
  {
    if s != [] {
      CountMonotone(s[1..], p, q);
    }
  }

  /** The elements of `s` that satisfy `p`, in order. */
  function Filter<T(==)>(s: seq<T>, p: T -> bool): (r: seq<T>)
    ensures |r| == Count(s, p)
    ensures forall x | x in r :: x in s && p(x)
    ensures forall x | x in s && p(x) :: x in r
  {
    if s == [] then [] else (if p(s[0]) then [s[0]] else []) + Filter(s[1..], p)
  }

  /** Keys strictly increase along the sequence: rows are in insertion (rowid) order and keys are unique. */
  ghost predicate Increasing<T>(s: seq<T>, key: T -> nat)
  {
    forall i, j | 0 <= i < j < |s| :: key(s[i]) < key(s[j])
  }

  /** The set of keys used by the rows of `s`. */
  function Keys<T(==)>(s: seq<T>, key: T -> nat): set<nat>
  {
    set x | x in s :: key(x)
  }

  /** The first row whose key is `id` (`SELECT ... WHERE id = :id`), if any. */
  function Find<T(==)>(s: seq<T>, key: T -> nat, id: nat): (r: Option<T>)
    ensures r.Some? ==> r.value in s && key(r.value) == id
    ensures r.None? <==> id !in Keys(s, key)
  {
    if s == [] then None
    else if key(s[0]) == id then Some(s[0])
    else Find(s[1..], key, id)
  }

  /** With unique keys, the row found for an id is the only row with that id. */
  lemma {:induction false} FindUnique<T>(s: seq<T>, key: T -> nat, x: T)
    requires Increasing(s, key)
    requires x in s
    ensures Find(s, key, key(x)) == Some(x)
  {
    if s[0] != x {
      assert x in s[1..];
      FindUnique(s[1..], key, x);
    }
  }

  /** `DELETE ... WHERE id = :id`: every row whose key is `id` is dropped, the rest keep their order. */
  function Remove<T(==)>(s: seq<T>, key: T -> nat, id: nat): (r: seq<T>)
    ensures forall x | x in r :: x in s && key(x) != id
    ensures forall x | x in s && key(x) != id :: x in r
    ensures Keys(r, key) == Keys(s, key) - {id}
  {
    Filter(s, KeyIsNot(key, id))
  }

  /** The predicate "the key is not `id`". */
  function KeyIsNot<T>(key: T -> nat, id: nat): T -> bool
  {
    x => key(x) != id
  }

  lemma {:induction false} FilterIncreasing<T>(s: seq<T>, key: T -> nat, p: T -> bool)
    requires Increasing(s, key)
    ensures Increasing(Filter(s, p), key)
  {
    if s != [] {
      FilterIncreasing(s[1..], key, p);
      var rest := Filter(s[1..], p);
      forall x | x in rest ensures key(s[0]) < key(x) {
        var k :| 0 <= k < |s[1..]| && s[1..][k] == x;
        assert s[k + 1] == x;
      }
      if p(s[0]) {
        ConsIncreasing(s[0], rest, key);
      }
    }
  }

  /** A row with a key below every key of an increasing sequence can be put in front of it. */
  lemma ConsIncreasing<T>(x: T, s: seq<T>, key: T -> nat)
    requires Increasing(s, key)
    requires forall y | y in s :: key(x) < key(y)
    ensures Increasing([x] + s, key)
  {
    var r := [x] + s;
    forall i, j | 0 <= i < j < |r| ensures key(r[i]) < key(r[j]) {
      if i == 0 {
        assert r[j] in s;
      } else {
        assert r[i] == s[i - 1] && r[j] == s[j - 1];
      }
    }
  }

  /** With unique keys, removing an existing id removes exactly one row. */
  lemma {:induction false} RemoveOne<T>(s: seq<T>, key: T -> nat, id: nat)
    requires Increasing(s, key)
    requires id in Keys(s, key)
    ensures |Remove(s, key, id)| == |s| - 1
  {
    var x :| x in s && key(x) == id;
    if s[0] == x {
      assert forall y | y in s[1..] :: key(y) != id by {
        forall y | y in s[1..] ensures key(y) != id {
          var j :| 0 <= j < |s[1..]| && s[1..][j] == y;
          assert s[j + 1] == y;
        }
      }
      FilterAll(s[1..], (y: T) => key(y) != id);
    } else {
      assert x in s[1..];
      assert key(s[0]) != id by {
        var i :| 0 <= i < |s| && s[i] == x;
        assert i > 0;
      }
      RemoveOne(s[1..], key, id);
    }
  }

  lemma {:induction false} FilterAll<T>(s: seq<T>, p: T -> bool)
    requires forall x | x in s :: p(x)
    ensures Filter(s, p) == s
  {
    if s != [] {
      FilterAll(s[1..], p);
    }
  }

  /** The values `f` takes on the elements of `s`. */
  function Image<T(==), U(==)>(s: seq<T>, f: T -> U): set<U>
  {
    set x | x in s :: f(x)
  }

  /** A set built from the elements of a sequence has at most as many members
      as the sequence has elements (`COUNT(DISTINCT f) <= COUNT(*)`). */
  lemma {:induction false} ImageCardinality<T, U>(s: seq<T>, f: T -> U)
    ensures |Image(s, f)| <= |s|
  {
    if s != [] {
      ImageCardinality(s[1..], f);
      var tail := Image(s[1..], f);
      assert (set x | x in s :: f(x)) <= tail + {f(s[0])} by {
        forall y | y in (set x | x in s :: f(x)) ensures y in tail + {f(s[0])} {
          var x :| x in s && f(x) == y;
          if x != s[0] {
            var i :| 0 <= i < |s| && s[i] == x;
            assert s[1..][i - 1] == x;
          }
        }
      }
      SubsetCardinality(set x | x in s :: f(x), tail + {f(s[0])});
    }
  }

  lemma SubsetCardinality<U>(a: set<U>, b: set<U>)
    requires a <= b
    ensures |a| <= |b|
  {
    assert b == a + (b - a);
  }

  /** `le` is total: any two values are ordered one way or the other. */
  ghost predicate Total<T(!new)>(le: (T, T) -> bool)
  {
    forall a, b :: le(a, b) || le(b, a)
  }

  /** Every element is ordered before its successor. */
  predicate Sorted<T(==)>(s: seq<T>, le: (T, T) -> bool)
  {
    forall i | 0 <= i < |s| - 1 :: le(s[i], s[i + 1])
  }

  function Insert<T(==)>(x: T, s: seq<T>, le: (T, T) -> bool): (r: seq<T>)
    ensures multiset(r) == multiset(s) + multiset{x}
    ensures |r| == |s| + 1
    ensures r[0] == x || (s != [] && r[0] == s[0])
  {
    if s == [] then [x]
    else if le(x, s[0]) then [x] + s
    else
      assert s == [s[0]] + s[1..];
      [s[0]] + Insert(x, s[1..], le)
  }

  lemma {:induction false} InsertSorted<T(!new)>(x: T, s: seq<T>, le: (T, T) -> bool)
    requires Total(le)
    requires Sorted(s, le)
    ensures Sorted(Insert(x, s, le), le)
  {
    if s != [] && !le(x, s[0]) {
      assert le(s[0], x);
      InsertSorted(x, s[1..], le);
    }
  }

  /** Insertion sort: a permutation of `s` ordered by `le`. */
  function Sort<T(==)>(s: seq<T>, le: (T, T) -> bool): (r: seq<T>)
    ensures multiset(r) == multiset(s)
    ensures |r| == |s|
  {
    if s == [] then []
    else
      assert s == [s[0]] + s[1..];
      Insert(s[0], Sort(s[1..], le), le)
  }

  lemma {:induction false} SortSorted<T(!new)>(s: seq<T>, le: (T, T) -> bool)
    requires Total(le)
    ensures Sorted(Sort(s, le), le)
  {
    if s != [] {
      SortSorted(s[1..], le);
      InsertSorted(s[0], Sort(s[1..], le), le);
    }
  }

  function Min(a: int, b: int): int
  {
    if a <= b then a else b
  }

  /** `f` tells the elements of `s` apart: no two positions share a value of `f`. */
  ghost predicate InjectiveOn<T, U>(s: seq<T>, f: T -> U)
  {
    forall i, j | 0 <= i < j < |s| :: f(s[i]) != f(s[j])
  }

  lemma {:induction false} FilterInjective<T, U>(s: seq<T>, f: T -> U, p: T -> bool)
    requires InjectiveOn(s, f)
    ensures InjectiveOn(Filter(s, p), f)
  {
    if s != [] {
      FilterInjective(s[1..], f, p);
      var rest := Filter(s[1..], p);
      forall x | x in rest ensures f(s[0]) != f(x) {
        var j :| 0 <= j < |s[1..]| && s[1..][j] == x;
        assert s[j + 1] == x;
      }
    }
  }

  /** Increasing keys are in particular pairwise distinct. */
  lemma IncreasingInjective<T>(s: seq<T>, key: T -> nat)
    requires Increasing(s, key)
    ensures InjectiveOn(s, key)
  {
  }

  /** The image of an injective sequence has as many members as the sequence has elements. */
  lemma {:induction false} InjectiveCard<T, U>(s: seq<T>, f: T -> U)
    requires InjectiveOn(s, f)
    ensures |Image(s, f)| == |s|
  {
    if s != [] {
      InjectiveCard(s[1..], f);
      var tail := Image(s[1..], f);
      assert (set x | x in s :: f(x)) == tail + {f(s[0])} by {
        forall y | y in (set x | x in s :: f(x)) ensures y in tail + {f(s[0])} {
          var x :| x in s && f(x) == y;
          if x != s[0] {
            var i :| 0 <= i < |s| && s[i] == x;
            assert s[1..][i - 1] == x;
          }
        }
      }
    }
  }

  /** The predicate "is equal to `y`". */
  function EqualTo<T(==)>(y: T): T -> bool
  {
    x => x == y
  }

  /** In a sequence whose elements are pairwise distinct, any one value occurs at most once. */
  lemma {:induction false} CountDistinctAtMostOne<T>(s: seq<T>, y: T)
    requires forall i, j | 0 <= i < j < |s| :: s[i] != s[j]
    ensures Count(s, EqualTo(y)) <= 1
  {
    if s != [] {
      CountDistinctAtMostOne(s[1..], y);
      if s[0] == y {
        assert forall i | 0 <= i < |s[1..]| :: s[1..][i] != y by {
          forall i | 0 <= i < |s[1..]| ensures s[1..][i] != y {
            assert s[1..][i] == s[i + 1];
          }
        }
      }
    }
  }

  /** Filtering by two predicates that agree on every element gives the same result. */
  lemma {:induction false} FilterCongruent<T>(s: seq<T>, p: T -> bool, q: T -> bool)
    requires forall x | x in s :: p(x) == q(x)
    ensures Filter(s, p) == Filter(s, q)
  {
    if s != [] {
      FilterCongruent(s[1..], p, q);
    }
  }

  /** Filtering distributes over concatenation. */
  lemma {:induction false} FilterConcat<T>(a: seq<T>, b: seq<T>, p: T -> bool)
    ensures Filter(a + b, p) == Filter(a, p) + Filter(b, p)
  {
    if a == [] {
      assert a + b == b;
    } else {
      assert (a + b)[1..] == a[1..] + b;
      FilterConcat(a[1..], b, p);
    }
  }

  /** Filtering a prefix one element longer adds that element exactly when it satisfies `p`. */
  lemma FilterSnoc<T>(s: seq<T>, i: nat, p: T -> bool)
    requires i < |s|
    ensures Filter(s[..i + 1], p) == Filter(s[..i], p) + (if p(s[i]) then [s[i]] else [])
  {
    assert s[..i + 1] == s[..i] + [s[i]];
    FilterConcat(s[..i], [s[i]], p);
  }

  ghost predicate Transitive<T(!new)>(le: (T, T) -> bool)
  {
    forall a, b, c :: le(a, b) && le(b, c) ==> le(a, c)
  }

  /** Under a transitive order, a sequence sorted step by step is ordered pairwise. */
  lemma {:induction false} SortedPairwise<T(!new)>(s: seq<T>, le: (T, T) -> bool, i: nat, j: nat)
    requires Transitive(le) && Sorted(s, le)
    requires i < j < |s|
    ensures le(s[i], s[j])
    decreases j - i
  {
    if i + 1 < j {
      SortedPairwise(s, le, i + 1, j);
    }
  }

  /** Filtering keeps a sequence sorted under a transitive order. */
  lemma {:induction false} FilterSorted<T(!new)>(s: seq<T>, p: T -> bool, le: (T, T) -> bool)
    requires Transitive(le) && Sorted(s, le)
    ensures Sorted(Filter(s, p), le)
  {
    if s != [] {
      var rest := Filter(s[1..], p);
      SortedTail(s, le);
      FilterSorted(s[1..], p, le);
      if p(s[0]) && rest != [] {
        assert rest[0] in s[1..];
        var j :| 0 <= j < |s[1..]| && s[1..][j] == rest[0];
        SortedPairwise(s, le, 0, j + 1);
        SortedCons(s[0], rest, le);
      }
    }
  }

  lemma SortedTail<T>(s: seq<T>, le: (T, T) -> bool)
    requires s != [] && Sorted(s, le)
    ensures Sorted(s[1..], le)
  {
    forall i | 0 <= i < |s[1..]| - 1 ensures le(s[1..][i], s[1..][i + 1]) {
      assert s[1..][i] == s[i + 1] && s[1..][i + 1] == s[i + 2];
    }
  }

  lemma SortedCons<T>(x: T, rest: seq<T>, le: (T, T) -> bool)
    requires rest != [] && le(x, rest[0]) && Sorted(rest, le)
    ensures Sorted([x] + rest, le)
  {
    var r := [x] + rest;
    forall i | 0 <= i < |r| - 1 ensures le(r[i], r[i + 1]) {
      if i > 0 {
        assert r[i] == rest[i - 1] && r[i + 1] == rest[i];
      }
    }
  }

  lemma MulZero(n: int, k: int)
    requires n > 0 && -n < n * k < n
    ensures k == 0
  {
  }

  /** Euclidean division is determined by its quotient and remainder. */
  lemma ModUnique(a: int, n: int, q: int, r: int)
    requires n > 0 && a == n * q + r && 0 <= r < n
    ensures a / n == q && a % n == r
  {
    assert n * (q - a / n) == a % n - r;
    MulZero(n, q - a / n);
  }

  /** Advancing an index modulo n commutes with taking it modulo n. */
  lemma ModSucc(a: nat, n: nat)
    requires n > 0
    ensures (a % n + 1) % n == (a + 1) % n
  {
    if a % n + 1 < n {
      ModUnique(a + 1, n, a / n, a % n + 1);
    } else {
      assert n * (a / n) + n == n * (a / n + 1);
      ModUnique(a + 1, n, a / n + 1, 0);
    }
  }

  lemma ModAddMultiple(a: nat, n: nat)
    requires n > 0
    ensures (a + n) % n == a % n
  {
    assert n * (a / n) + n == n * (a / n + 1);
    ModUnique(a + n, n, a / n + 1, a % n);
  }
}
