/**
 * Generic sequence operations standing for the Java stream stages the core
 * uses: `filter`, `limit` and a stable `sorted` by a descending key.
 */
module Seqs {

  /** `Stream.limit(n)`: the first `n` elements, or all of them. */
  function Take<T>(s: seq<T>, n: int): (r: seq<T>)
    requires n >= 0
    ensures |r| == if n < |s| then n else |s|
    ensures r <= s
  {
    if n < |s| then s[..n] else s
  }

  /** `Stream.filter(p)`: the elements satisfying `p`, in input order. */
  function Filter<T>(s: seq<T>, p: T -> bool): (r: seq<T>)
    ensures |r| <= |s|
  {
    if |s| == 0 then []
    else Filter(s[..|s| - 1], p) + (if p(s[|s| - 1]) then [s[|s| - 1]] else [])
  }

  /** Filtering keeps each element satisfying `p` as often as it occurs, and drops the rest. */
  lemma {:induction false} FilterCount<T>(s: seq<T>, p: T -> bool, x: T)
    ensures multiset(Filter(s, p))[x] == if p(x) then multiset(s)[x] else 0
    decreases |s|
  {
    if |s| > 0 {
      assert s == s[..|s| - 1] + [s[|s| - 1]];
      FilterCount(s[..|s| - 1], p, x);
    }
  }

  lemma FilterMembers<T>(s: seq<T>, p: T -> bool, x: T)
    ensures x in Filter(s, p) <==> x in s && p(x)
  {
    FilterCount(s, p, x);
  }

  lemma {:induction false} FilterEmpty<T>(s: seq<T>, p: T -> bool)
    requires forall i :: 0 <= i < |s| ==> !p(s[i])
    ensures Filter(s, p) == []
    decreases |s|
  {
    if |s| > 0 {
      FilterEmpty(s[..|s| - 1], p);
    }
  }

  lemma {:induction false} FilterConcat<T>(a: seq<T>, b: seq<T>, p: T -> bool)
    ensures Filter(a + b, p) == Filter(a, p) + Filter(b, p)
    decreases |b|
  {
    if |b| == 0 {
      assert a + b == a;
    } else {
      var b' := b[..|b| - 1];
      assert (a + b)[..|a + b| - 1] == a + b';
      assert (a + b)[|a + b| - 1] == b[|b| - 1];
      FilterConcat(a, b', p);
    }
  }

  /** `s` is non-increasing by `key`. */
  predicate SortedDesc<T>(s: seq<T>, key: T -> real) {
    forall i, j :: 0 <= i < j < |s| ==> key(s[i]) >= key(s[j])
  }

  /** The test "has key value `k`", used to pick out the elements that tie. */
  function HasKey<T>(key: T -> real, k: real): T -> bool {
    x => key(x) == k
  }

  /** Places `x` before the first element whose key is not above its own. */
  function Insert<T>(x: T, s: seq<T>, key: T -> real): (r: seq<T>)
    ensures |r| == |s| + 1
    ensures multiset(r) == multiset(s) + multiset{x}
  {
    if |s| == 0 || key(x) >= key(s[0]) then [x] + s
    else
      assert s == [s[0]] + s[1..];
      [s[0]] + Insert(x, s[1..], key)
  }

  /**
   * `Stream.sorted(comparing(key).reversed())`: a stable sort by descending
   * key. Elements with equal keys keep their input order.
   */
  function SortDesc<T>(s: seq<T>, key: T -> real): (r: seq<T>)
    ensures |r| == |s|
    ensures multiset(r) == multiset(s)
  {
    if |s| == 0 then []
    else
      assert s == [s[0]] + s[1..];
      Insert(s[0], SortDesc(s[1..], key), key)
  }

  /** Sort by descending key, then keep the first `n`. */
  function TopN<T>(s: seq<T>, key: T -> real, n: int): seq<T>
    requires n >= 0
  {
    Take(SortDesc(s, key), n)
  }

  lemma {:induction false} InsertSorted<T>(x: T, s: seq<T>, key: T -> real)
    requires SortedDesc(s, key)
    ensures SortedDesc(Insert(x, s, key), key)
    decreases |s|
  {
    if |s| == 0 || key(x) >= key(s[0]) {
    } else {
      var t := Insert(x, s[1..], key);
      assert SortedDesc(s[1..], key) by {
        forall i, j | 0 <= i < j < |s[1..]| ensures key(s[1..][i]) >= key(s[1..][j]) {
          assert s[1..][i] == s[i + 1] && s[1..][j] == s[j + 1];
        }
      }
      InsertSorted(x, s[1..], key);
      forall j | 0 <= j < |t| ensures key(t[j]) <= key(s[0]) {
        assert t[j] in multiset(t);
        assert t[j] == x || t[j] in multiset(s[1..]);
        if t[j] != x {
          var m :| 0 <= m < |s[1..]| && s[1..][m] == t[j];
          assert s[m + 1] == t[j];
        }
      }
      var r := [s[0]] + t;
      forall i, j | 0 <= i < j < |r| ensures key(r[i]) >= key(r[j]) {
        if i > 0 {
          assert r[i] == t[i - 1] && r[j] == t[j - 1];
        } else {
          assert r[j] == t[j - 1];
        }
      }
    }
  }

  lemma {:induction false} SortDescSorted<T>(s: seq<T>, key: T -> real)
    ensures SortedDesc(SortDesc(s, key), key)
    decreases |s|
  {
    if |s| > 0 {
      SortDescSorted(s[1..], key);
      InsertSorted(s[0], SortDesc(s[1..], key), key);
    }
  }

  lemma {:induction false} InsertTies<T>(x: T, s: seq<T>, key: T -> real, k: real)
    ensures Filter(Insert(x, s, key), HasKey(key, k))
         == Filter([x], HasKey(key, k)) + Filter(s, HasKey(key, k))
    decreases |s|
  {
    var p := HasKey(key, k);
    if |s| == 0 || key(x) >= key(s[0]) {
      FilterConcat([x], s, p);
    } else {
      InsertTies(x, s[1..], key, k);
      FilterConcat([s[0]], Insert(x, s[1..], key), p);
      FilterConcat([s[0]], s[1..], p);
      assert s == [s[0]] + s[1..];
      if key(x) == k {
        assert Filter([s[0]], p) == [];
      } else {
        assert Filter([x], p) == [];
      }
    }
  }

  /** Stability: the elements sharing any one key value keep their input order. */
  lemma {:induction false} SortDescStable<T>(s: seq<T>, key: T -> real, k: real)
    ensures Filter(SortDesc(s, key), HasKey(key, k)) == Filter(s, HasKey(key, k))
    decreases |s|
  {
    if |s| > 0 {
      SortDescStable(s[1..], key, k);
      InsertTies(s[0], SortDesc(s[1..], key), key, k);
      assert s == [s[0]] + s[1..];
      FilterConcat([s[0]], s[1..], HasKey(key, k));
    }
  }

  /** Sort-then-limit keeps min(n, |s|) elements of `s`, and all of them when `n` reaches |s|. */
  lemma TopNElements<T>(s: seq<T>, key: T -> real, n: int)
    requires n >= 0
    ensures |TopN(s, key, n)| == if n < |s| then n else |s|
    ensures multiset(TopN(s, key, n)) <= multiset(s)
    ensures n >= |s| ==> multiset(TopN(s, key, n)) == multiset(s)
  {
    var t := SortDesc(s, key);
    var r := TopN(s, key, n);
    assert t == r + t[|r|..];
    assert multiset(t) == multiset(r) + multiset(t[|r|..]);
  }

  lemma TopNSorted<T>(s: seq<T>, key: T -> real, n: int)
    requires n >= 0
    ensures SortedDesc(TopN(s, key, n), key)
  {
    SortDescSorted(s, key);
  }

  /** The elements kept with a given key are a prefix of those of the input, in input order. */
  lemma TopNTies<T>(s: seq<T>, key: T -> real, n: int)
    requires n >= 0
    ensures forall k :: Filter(TopN(s, key, n), HasKey(key, k)) <= Filter(s, HasKey(key, k))
  {
    var t := SortDesc(s, key);
    var r := TopN(s, key, n);
    var rest := t[|r|..];
    assert t == r + rest;
    forall k ensures Filter(r, HasKey(key, k)) <= Filter(s, HasKey(key, k)) {
      SortDescStable(s, key, k);
      FilterConcat(r, rest, HasKey(key, k));
    }
  }

  /** Nothing left out ranks above the last element kept. */
  lemma TopNCutoff<T>(s: seq<T>, key: T -> real, n: int)
    requires n >= 0
    ensures forall x :: x in s && x !in TopN(s, key, n) && n > 0 ==>
              key(x) <= key(TopN(s, key, n)[|TopN(s, key, n)| - 1])
  {
    var t := SortDesc(s, key);
    var r := TopN(s, key, n);
    SortDescSorted(s, key);
    forall x | x in s && x !in r && n > 0 ensures key(x) <= key(r[|r| - 1]) {
      assert x in multiset(t);
      var j :| 0 <= j < |t| && t[j] == x;
      assert r == t[..|r|];
      assert t[|r| - 1] == r[|r| - 1];
    }
  }

  /**
   * What sort-then-limit promises: the length, elements drawn from the input
   * without repetition, descending keys, ties in input order, and nothing
   * left out that ranks above the last element kept.
   */
  lemma TopNProperties<T>(s: seq<T>, key: T -> real, n: int)
    requires n >= 0
    ensures |TopN(s, key, n)| == if n < |s| then n else |s|
    ensures multiset(TopN(s, key, n)) <= multiset(s)
    ensures SortedDesc(TopN(s, key, n), key)
    ensures forall k :: Filter(TopN(s, key, n), HasKey(key, k)) <= Filter(s, HasKey(key, k))
    ensures forall x :: x in s && x !in TopN(s, key, n) && n > 0 ==>
              key(x) <= key(TopN(s, key, n)[|TopN(s, key, n)| - 1])
  {
    TopNElements(s, key, n);
    TopNSorted(s, key, n);
    TopNTies(s, key, n);
    TopNCutoff(s, key, n);
  }

  /**
   * Sort-then-limit over `c`, the elements of `s` that satisfy `p` (each as
   * often as in `s`): at most `n` elements, all drawn from `s` and
   * satisfying `p`, and an eligible element left out means the result is
   * full and its last element ranks no lower.
   */
  lemma TopNSelection<T>(s: seq<T>, c: seq<T>, p: T -> bool, key: T -> real, n: int)
    requires n >= 0
    requires forall x :: multiset(c)[x] == if p(x) then multiset(s)[x] else 0
    ensures |TopN(c, key, n)| <= n
    ensures multiset(TopN(c, key, n)) <= multiset(s)
    ensures forall x :: x in TopN(c, key, n) ==> p(x)
    ensures forall x :: x in s && p(x) && x !in TopN(c, key, n) ==>
              |TopN(c, key, n)| == n && (n > 0 ==> key(x) <= key(TopN(c, key, n)[n - 1]))
  {
    var r := TopN(c, key, n);
    TopNElements(c, key, n);
    forall x ensures multiset(r)[x] <= multiset(s)[x] {
      assert multiset(r)[x] <= multiset(c)[x];
    }
    forall x | x in r ensures p(x) {
      assert multiset(r)[x] > 0;
    }
    TopNCutoff(c, key, n);
    forall x | x in s && p(x) && x !in r
      ensures |r| == n && (n > 0 ==> key(x) <= key(r[n - 1]))
    {
      assert multiset(c)[x] > 0;
      assert x in c;
    }
  }

  lemma {:induction false} MultisetCardinality<T>(a: seq<T>, b: seq<T>)
    requires multiset(a) <= multiset(b)
    ensures |a| <= |b|
    decreases |a|
  {
    if |a| > 0 {
      var x := a[|a| - 1];
      assert a == a[..|a| - 1] + [x];
      assert x in multiset(b);
      var j :| 0 <= j < |b| && b[j] == x;
      var b' := b[..j] + b[j + 1..];
      assert b == b[..j] + [x] + b[j + 1..];
      assert multiset(b') == multiset(b) - multiset{x};
      assert multiset(a[..|a| - 1]) <= multiset(b');
      MultisetCardinality(a[..|a| - 1], b');
    }
  }
}
