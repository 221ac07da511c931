/** Generic sequence operations that stand for the table and list operations of the system:
    filtering rows, replacing the row with a given key or appending it, ordering rows by a key
    and keeping only the newest entries of a list. */
module Seqs {

  // ---------- filtering ----------

  /** The elements of `s` that satisfy `p`, in their original order (SQL `WHERE`, JavaScript `filter`). */
  function Filter<T(!new)>(s: seq<T>, p: T -> bool): (r: seq<T>)
    ensures |r| <= |s|
    ensures forall x :: x in r <==> x in s && p(x)
    ensures (forall x :: x in s ==> !p(x)) ==> r == []
  {
    if s == [] then []
    else if p(s[0]) then [s[0]] + Filter(s[1..], p)
    else Filter(s[1..], p)
  }

  lemma {:induction false} FilterAppend<T(!new)>(a: seq<T>, b: seq<T>, p: T -> bool)
    ensures Filter(a + b, p) == Filter(a, p) + Filter(b, p)
  {
    if a == [] {
      assert a + b == b;
    } else {
      assert (a + b)[1..] == a[1..] + b;
      FilterAppend(a[1..], b, p);
    }
  }

  lemma {:induction false} FilterAll<T(!new)>(s: seq<T>, p: T -> bool)
    requires forall x :: x in s ==> p(x)
    ensures Filter(s, p) == s
  {
    if s != [] {
      FilterAll(s[1..], p);
    }
  }

  /** Splitting by a predicate and its negation accounts for every element once. */
  lemma {:induction false} FilterPartition<T(!new)>(s: seq<T>, p: T -> bool, q: T -> bool)
    requires forall x :: q(x) == !p(x)
    ensures |Filter(s, p)| + |Filter(s, q)| == |s|
  {
    if s != [] {
      FilterPartition(s[1..], p, q);
    }
  }

  /** Filtering keeps every element exactly when every element satisfies the predicate. */
  lemma {:induction false} FilterKeepsAll<T(!new)>(s: seq<T>, p: T -> bool)
    ensures |Filter(s, p)| == |s| <==> forall x :: x in s ==> p(x)
  {
    if s != [] {
      FilterKeepsAll(s[1..], p);
      if !p(s[0]) {
        assert |Filter(s, p)| < |s|;
      } else {
        assert forall x :: x in s ==> x == s[0] || x in s[1..];
      }
    }
  }

  /** `a` is `b` with some elements left out, the others in their original order. */
  ghost predicate Subsequence<T>(a: seq<T>, b: seq<T>)
    decreases |b|
  {
    if a == [] then true
    else if b == [] then false
    else if a[0] == b[0] then Subsequence(a[1..], b[1..])
    else Subsequence(a, b[1..])
  }

  lemma {:induction false} FilterIsSubsequence<T(!new)>(s: seq<T>, p: T -> bool)
    ensures Subsequence(Filter(s, p), s)
  {
    if s != [] {
      FilterIsSubsequence(s[1..], p);
      if p(s[0]) {
        assert Filter(s, p)[1..] == Filter(s[1..], p);
      }
    }
  }

  /** Leaving out the first element of a subsequence keeps it a subsequence. */
  lemma {:induction false} SubsequenceTail<T>(a: seq<T>, b: seq<T>)
    requires a != [] && Subsequence(a, b)
    ensures Subsequence(a[1..], b)
    decreases |b|, 0
  {
    assert b == [b[0]] + b[1..];
    if a[0] == b[0] {
      SubsequenceCons(a[1..], b[1..], b[0]);
    } else {
      SubsequenceTail(a, b[1..]);
      SubsequenceCons(a[1..], b[1..], b[0]);
    }
  }

  /** Putting an element in front of `b` keeps every subsequence of `b` one. */
  lemma {:induction false} SubsequenceCons<T>(a: seq<T>, b: seq<T>, y: T)
    requires Subsequence(a, b)
    ensures Subsequence(a, [y] + b)
    decreases |b|, 1
  {
    assert ([y] + b)[1..] == b;
    if a != [] && a[0] == y {
      SubsequenceTail(a, b);
    }
  }

  /** Filtering keeps a strictly ascending key strictly ascending (so `ORDER BY id` over an
      id-ordered table is the filter itself). */
  lemma {:induction false} FilterAscending<T(!new)>(s: seq<T>, p: T -> bool, key: T -> int)
    requires StrictlyAscending(s, key)
    ensures StrictlyAscending(Filter(s, p), key)
  {
    if s != [] {
      var tail := s[1..];
      AscendingTail(s, key);
      FilterAscending(tail, p, key);
      var rest := Filter(tail, p);
      if p(s[0]) {
        forall x | x in rest ensures key(s[0]) < key(x) {
          var k :| 0 <= k < |tail| && tail[k] == x;
          assert s[k + 1] == x;
        }
        AscendingCons(s[0], rest, key);
      }
    }
  }

  lemma AscendingTail<T>(s: seq<T>, key: T -> int)
    requires s != [] && StrictlyAscending(s, key)
    ensures StrictlyAscending(s[1..], key)
  {
    var tail := s[1..];
    forall i, j | 0 <= i < j < |tail| ensures key(tail[i]) < key(tail[j]) {
      assert tail[i] == s[i + 1] && tail[j] == s[j + 1];
    }
  }

  lemma AscendingCons<T>(x: T, rest: seq<T>, key: T -> int)
    requires StrictlyAscending(rest, key)
    requires forall y :: y in rest ==> key(x) < key(y)
    ensures StrictlyAscending([x] + rest, key)
  {
    var r := [x] + rest;
    forall i, j | 0 <= i < j < |r| ensures key(r[i]) < key(r[j]) {
      assert r[j] == rest[j - 1];
      if i == 0 {
        assert rest[j - 1] in rest;
      } else {
        assert r[i] == rest[i - 1];
      }
    }
  }

  ghost predicate StrictlyAscending<T>(s: seq<T>, key: T -> int) {
    forall i, j :: 0 <= i < j < |s| ==> key(s[i]) < key(s[j])
  }

  /** Filtering a duplicate-free sequence leaves it duplicate-free. */
  lemma {:induction false} FilterNoDuplicates<T(!new)>(s: seq<T>, p: T -> bool)
    requires NoDuplicates(s)
    ensures NoDuplicates(Filter(s, p))
  {
    if s != [] {
      assert NoDuplicates(s[1..]) by {
        forall i, j | 0 <= i < j < |s[1..]| ensures s[1..][i] != s[1..][j] {
          assert s[i + 1] != s[j + 1];
        }
      }
      FilterNoDuplicates(s[1..], p);
      assert s[0] !in s[1..] by {
        forall k | 0 <= k < |s[1..]| ensures s[1..][k] != s[0] {
          assert s[k + 1] != s[0];
        }
      }
    }
  }

  // ---------- keyed upsert ----------

  /** No two elements share a key (a uniqueness constraint on a table). */
  ghost predicate KeysUnique<T, K>(s: seq<T>, key: T -> K) {
    forall i, j :: 0 <= i < j < |s| ==> key(s[i]) != key(s[j])
  }

  /** Replaces the first element whose key is that of `x` by `x`, in its position, or appends `x`
      when no element has that key (SQL `INSERT ... ON CONFLICT DO UPDATE`, JavaScript
      `findIndex` followed by an assignment or a `push`). */
  function Upsert<T, K(==)>(s: seq<T>, x: T, key: T -> K): (r: seq<T>)
    ensures x in r
    ensures |r| == |s| || |r| == |s| + 1
  {
    if s == [] then [x]
    else if key(s[0]) == key(x) then [x] + s[1..]
    else [s[0]] + Upsert(s[1..], x, key)
  }

  /** The upsert adds only `x` and keeps every element under another key. */
  lemma {:induction false} UpsertMembers<T, K>(s: seq<T>, x: T, key: T -> K)
    ensures forall y :: y in Upsert(s, x, key) ==> y == x || y in s
    ensures forall y :: y in s && key(y) != key(x) ==> y in Upsert(s, x, key)
  {
    if s != [] && key(s[0]) != key(x) {
      UpsertMembers(s[1..], x, key);
      assert Upsert(s, x, key) == [s[0]] + Upsert(s[1..], x, key);
      assert s == [s[0]] + s[1..];
    }
  }

  /** On a table with unique keys, the upsert keeps keys unique, leaves exactly `x` under its key
      and keeps every element under any other key. */
  lemma {:induction false} UpsertSpec<T, K>(s: seq<T>, x: T, key: T -> K)
    requires KeysUnique(s, key)
    ensures KeysUnique(Upsert(s, x, key), key)
    ensures forall y :: y in Upsert(s, x, key) && key(y) == key(x) ==> y == x
    ensures forall y :: key(y) != key(x) ==> (y in Upsert(s, x, key) <==> y in s)
  {
    UpsertMembers(s, x, key);
    if s != [] {
      forall y | y in s[1..] ensures key(y) != key(s[0]) {
        var k :| 0 <= k < |s[1..]| && s[1..][k] == y;
        assert s[k + 1] == y;
      }
      if key(s[0]) != key(x) {
        UpsertSpec(s[1..], x, key);
        var rest := Upsert(s[1..], x, key);
        UpsertMembers(s[1..], x, key);
        assert Upsert(s, x, key) == [s[0]] + rest;
        forall j | 0 <= j < |rest| ensures key(s[0]) != key(rest[j]) {
          assert rest[j] in rest;
        }
      }
    }
  }

  /** A later upsert under the same key replaces an earlier one entirely (last write wins; in
      particular repeating an upsert changes nothing). */
  lemma {:induction false} UpsertLastWriteWins<T, K>(s: seq<T>, x: T, y: T, key: T -> K)
    requires key(x) == key(y)
    ensures Upsert(Upsert(s, x, key), y, key) == Upsert(s, y, key)
  {
    if s != [] && key(s[0]) != key(x) {
      UpsertLastWriteWins(s[1..], x, y, key);
    }
  }

  /** When `i` is the first position holding the key of `x`, the upsert replaces that slot. */
  lemma {:induction false} UpsertAt<T, K>(s: seq<T>, x: T, key: T -> K, i: nat)
    requires i < |s| && key(s[i]) == key(x)
    requires forall k :: 0 <= k < i ==> key(s[k]) != key(x)
    ensures Upsert(s, x, key) == s[i := x]
  {
    if i > 0 {
      UpsertAt(s[1..], x, key, i - 1);
      assert [s[0]] + s[1..][i - 1 := x] == s[i := x];
    }
  }

  /** When no element holds the key of `x`, the upsert appends `x`. */
  lemma {:induction false} UpsertAppends<T, K>(s: seq<T>, x: T, key: T -> K)
    requires forall k :: 0 <= k < |s| ==> key(s[k]) != key(x)
    ensures Upsert(s, x, key) == s + [x]
  {
    if s != [] {
      UpsertAppends(s[1..], x, key);
      assert [s[0]] + (s[1..] + [x]) == s + [x];
    }
  }

  // ---------- ordering ----------

  /** Keys do not increase from left to right (SQL `ORDER BY key DESC`). */
  ghost predicate SortedDesc<T>(s: seq<T>, key: T -> int) {
    forall i, j :: 0 <= i < j < |s| ==> key(s[i]) >= key(s[j])
  }

  /** `x` placed before the first element whose key is not above its own. */
  function Insert<T>(x: T, s: seq<T>, key: T -> int): (r: seq<T>)
    ensures |r| == |s| + 1
  {
    if s == [] || key(x) >= key(s[0]) then [x] + s
    else [s[0]] + Insert(x, s[1..], key)
  }

  /** Inserting adds exactly `x`. */
  lemma {:induction false} InsertPermutes<T>(x: T, s: seq<T>, key: T -> int)
    ensures multiset(Insert(x, s, key)) == multiset(s) + multiset{x}
  {
    if s != [] && key(x) < key(s[0]) {
      InsertPermutes(x, s[1..], key);
      assert s == [s[0]] + s[1..];
    }
  }

  /** Inserting into a descending sequence keeps it descending. */
  lemma {:induction false} InsertSorted<T>(x: T, s: seq<T>, key: T -> int)
    requires SortedDesc(s, key)
    ensures SortedDesc(Insert(x, s, key), key)
  {
    if s != [] && key(x) < key(s[0]) {
      var rest := Insert(x, s[1..], key);
      InsertSorted(x, s[1..], key);
      InsertPermutes(x, s[1..], key);
      forall j | 0 <= j < |rest| ensures key(rest[j]) <= key(s[0]) {
        assert rest[j] in multiset(rest);
        if rest[j] != x {
          assert rest[j] in multiset(s[1..]);
          var k :| 0 <= k < |s[1..]| && s[1..][k] == rest[j];
          assert s[k + 1] == rest[j];
        }
      }
      assert forall j :: 0 < j < |rest| + 1 ==> ([s[0]] + rest)[j] == rest[j - 1];
    }
  }

  /** `s` ordered by descending key (insertion sort). */
  function SortDesc<T>(s: seq<T>, key: T -> int): (r: seq<T>)
    ensures |r| == |s|
  {
    if s == [] then [] else Insert(s[0], SortDesc(s[1..], key), key)
  }

  /** The sort orders by descending key and is a permutation of its input. */
  lemma {:induction false} SortDescSpec<T>(s: seq<T>, key: T -> int)
    ensures SortedDesc(SortDesc(s, key), key)
    ensures multiset(SortDesc(s, key)) == multiset(s)
  {
    if s != [] {
      SortDescSpec(s[1..], key);
      InsertSorted(s[0], SortDesc(s[1..], key), key);
      InsertPermutes(s[0], SortDesc(s[1..], key), key);
      assert s == [s[0]] + s[1..];
    }
  }

  // ---------- prefixes and suffixes ----------

  function Min(a: int, b: int): int { if a <= b then a else b }

  /** The first `n` elements, or all of them when there are fewer (SQL `LIMIT n`). */
  function Take<T>(s: seq<T>, n: nat): (r: seq<T>)
    ensures |r| == Min(n, |s|)
  {
    if |s| <= n then s else s[..n]
  }

  /** The last `n` elements, or all of them when there are fewer: the effect of dropping the
      oldest (front) entries until at most `n` remain. */
  function KeepNewest<T>(s: seq<T>, n: nat): (r: seq<T>)
    ensures |r| == Min(n, |s|)
    ensures r == s[|s| - |r|..]
  {
    if |s| <= n then s else s[|s| - n..]
  }

  /** No element occurs twice. */
  ghost predicate NoDuplicates<T>(s: seq<T>) {
    forall i, j :: 0 <= i < j < |s| ==> s[i] != s[j]
  }

  function Reverse<T>(s: seq<T>): (r: seq<T>)
    ensures |r| == |s|
    ensures forall i :: 0 <= i < |s| ==> r[i] == s[|s| - 1 - i]
  {
    if s == [] then [] else Reverse(s[1..]) + [s[0]]
  }
}
