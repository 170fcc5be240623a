/**
 * Sorting the rows of a dictionary by key, as `encodeDictionary` does with
 * `usort` and a comparator that applies `strcmp` to the keys.
 *
 * `SortByKey` is the reference: a stable insertion sort. `UsortByKey` is the
 * in-place sort that runs over the PHP array of rows. For rows whose keys are
 * distinct every correct sort gives the same order (`SortedUnique`), so the
 * choice of algorithm only matters between rows with equal keys.
 */
module KeySort {
  import opened Bytes

  /** Keys never go down from left to right, in `strcmp` order. */
  predicate SortedByKey<T>(s: seq<(bytes, T)>) {
    forall i, j :: 0 <= i < j < |s| ==> !Below(s[j].0, s[i].0)
  }

  /** No two rows share a key. */
  predicate DistinctKeys<T>(s: seq<(bytes, T)>) {
    forall i, j :: 0 <= i < j < |s| ==> s[i].0 != s[j].0
  }

  /** The rows with `f` applied to each value and the keys left alone. */
  function MapValues<T, U>(f: T -> U, s: seq<(bytes, T)>): (r: seq<(bytes, U)>)
    ensures |r| == |s|
    ensures forall i :: 0 <= i < |s| ==> r[i] == (s[i].0, f(s[i].1))
  {
    seq(|s|, i requires 0 <= i < |s| => (s[i].0, f(s[i].1)))
  }

  /** `f` applied to every element, in order. */
  function Apply<A, B>(f: A -> B, s: seq<A>): (r: seq<B>)
    ensures |r| == |s|
    ensures forall i :: 0 <= i < |s| ==> r[i] == f(s[i])
  {
    seq(|s|, i requires 0 <= i < |s| => f(s[i]))
  }

  lemma MultisetCancel<T>(m: multiset<T>, n: multiset<T>, y: T)
    requires m + multiset{y} == n + multiset{y}
    ensures m == n
  {
    assert m == (m + multiset{y}) - multiset{y};
    assert n == (n + multiset{y}) - multiset{y};
  }

  lemma ApplyConcat<A, B>(f: A -> B, a: seq<A>, b: seq<A>)
    ensures Apply(f, a + b) == Apply(f, a) + Apply(f, b)
  {
  }

  /** Mapping a sequence with one element taken out maps the others and drops that element's image. */
  lemma ApplyRemove<A, B>(f: A -> B, q: seq<A>, k: int)
    requires 0 <= k < |q|
    ensures multiset(Apply(f, q)) == multiset(Apply(f, q[..k] + q[k + 1..])) + multiset{f(q[k])}
  {
    var front, back := q[..k], q[k + 1..];
    assert q == front + [q[k]] + back;
    ApplyConcat(f, front + [q[k]], back);
    ApplyConcat(f, front, [q[k]]);
    ApplyConcat(f, front, back);
  }

  /** Taking the last element off both sides of a multiset equation. */
  lemma PermutationRemove<A>(p: seq<A>, q: seq<A>) returns (k: int)
    requires multiset(p) == multiset(q) && p != []
    ensures 0 <= k < |q| && q[k] == p[|p| - 1]
    ensures multiset(p[..|p| - 1]) == multiset(q[..k] + q[k + 1..])
  {
    var init, x := p[..|p| - 1], p[|p| - 1];
    assert p == init + [x];
    assert x in multiset(q);
    k :| 0 <= k < |q| && q[k] == x;
    var front, back := q[..k], q[k + 1..];
    assert q == front + [x] + back;
    assert multiset(q) == multiset(front + back) + multiset{x};
    MultisetCancel(multiset(init), multiset(front + back), x);
  }

  /** Rearranging the input rearranges the output of an element-wise map the same way. */
  lemma {:induction false} ApplyPermutation<A, B>(f: A -> B, p: seq<A>, q: seq<A>)
    requires multiset(p) == multiset(q)
    ensures multiset(Apply(f, p)) == multiset(Apply(f, q))
  {
    if p != [] {
      var init, x := p[..|p| - 1], p[|p| - 1];
      var k := PermutationRemove(p, q);
      ApplyPermutation(f, init, q[..k] + q[k + 1..]);
      assert p == init + [x];
      ApplyConcat(f, init, [x]);
      ApplyRemove(f, q, k);
    }
  }

  /** Places `x` after every row whose key is not above its own (stable insertion). */
  function InsertByKey<T(==)>(s: seq<(bytes, T)>, x: (bytes, T)): (r: seq<(bytes, T)>)
    ensures |r| == |s| + 1
    ensures multiset(r) == multiset(s) + multiset{x}
  {
    if s == [] || !Below(x.0, s[|s| - 1].0) then s + [x]
    else
      var init := s[..|s| - 1];
      assert s == init + [s[|s| - 1]];
      InsertByKey(init, x) + [s[|s| - 1]]
  }

  /** Stable insertion sort of the rows by key: the reference for `usort`. */
  function SortByKey<T(==)>(s: seq<(bytes, T)>): (r: seq<(bytes, T)>)
    ensures |r| == |s|
    ensures multiset(r) == multiset(s)
  {
    if s == [] then []
    else
      var init := s[..|s| - 1];
      assert s == init + [s[|s| - 1]];
      InsertByKey(SortByKey(init), s[|s| - 1])
  }

  /** The order "not above" is transitive: a <= b and b <= c give a <= c. */
  lemma NotBelowTransitive(a: bytes, b: bytes, c: bytes)
    requires !Below(b, a) && !Below(c, b)
    ensures !Below(c, a)
  {
    BelowTrichotomy(a, b);
    BelowTrichotomy(b, c);
    BelowTrichotomy(a, c);
    if Below(c, a) {
      if Below(a, b) {
        BelowTransitive(c, a, b);
      }
    }
  }

  lemma {:induction false} InsertByKeySorted<T>(s: seq<(bytes, T)>, x: (bytes, T))
    requires SortedByKey(s)
    ensures SortedByKey(InsertByKey(s, x))
  {
    if s == [] {
    } else if !Below(x.0, s[|s| - 1].0) {
      var last := s[|s| - 1];
      forall i | 0 <= i < |s|
        ensures !Below(x.0, s[i].0)
      {
        if i < |s| - 1 {
          NotBelowTransitive(s[i].0, last.0, x.0);
        }
      }
    } else {
      var init, last := s[..|s| - 1], s[|s| - 1];
      InsertByKeySorted(init, x);
      var ins := InsertByKey(init, x);
      forall i | 0 <= i < |ins|
        ensures !Below(last.0, ins[i].0)
      {
        assert ins[i] in multiset(init) + multiset{x};
        if ins[i] == x {
          BelowTrichotomy(x.0, last.0);
        } else {
          assert ins[i] in init;
          var k :| 0 <= k < |init| && init[k] == ins[i];
          assert s[k] == ins[i];
        }
      }
      assert InsertByKey(s, x) == ins + [last];
    }
  }

  /** The reference sort puts the keys in order and keeps every row. */
  lemma {:induction false} SortByKeySorted<T>(s: seq<(bytes, T)>)
    ensures SortedByKey(SortByKey(s))
  {
    if s != [] {
      SortByKeySorted(s[..|s| - 1]);
      InsertByKeySorted(SortByKey(s[..|s| - 1]), s[|s| - 1]);
    }
  }

  /** Sorting looks only at keys, so it commutes with rewriting the values. */
  lemma {:induction false} InsertByKeyMapValues<T, U>(f: T -> U, s: seq<(bytes, T)>, x: (bytes, T))
    ensures InsertByKey(MapValues(f, s), (x.0, f(x.1))) == MapValues(f, InsertByKey(s, x))
  {
    if s != [] && Below(x.0, s[|s| - 1].0) {
      InsertByKeyMapValues(f, s[..|s| - 1], x);
      assert MapValues(f, s)[..|s| - 1] == MapValues(f, s[..|s| - 1]);
    }
  }

  lemma {:induction false} SortByKeyMapValues<T, U>(f: T -> U, s: seq<(bytes, T)>)
    ensures SortByKey(MapValues(f, s)) == MapValues(f, SortByKey(s))
  {
    if s != [] {
      SortByKeyMapValues(f, s[..|s| - 1]);
      assert MapValues(f, s)[..|s| - 1] == MapValues(f, s[..|s| - 1]);
      InsertByKeyMapValues(f, SortByKey(s[..|s| - 1]), s[|s| - 1]);
    }
  }

  /** In a sorted sequence with distinct keys the keys go strictly up. */
  lemma SortedDistinctStrict<T>(s: seq<(bytes, T)>, i: int, j: int)
    requires SortedByKey(s) && DistinctKeys(s)
    requires 0 <= i < j < |s|
    ensures Below(s[i].0, s[j].0)
  {
    BelowTrichotomy(s[i].0, s[j].0);
  }

  /** Taking one row out keeps the keys distinct, and the other rows' keys differ from its key. */
  lemma DistinctKeysRemove<T>(a: seq<(bytes, T)>, k: int)
    requires DistinctKeys(a) && 0 <= k < |a|
    ensures DistinctKeys(a[..k] + a[k + 1..])
    ensures forall z :: z in a[..k] + a[k + 1..] ==> z.0 != a[k].0
  {
    var rest := a[..k] + a[k + 1..];
    forall i | 0 <= i < |rest|
      ensures rest[i] == a[if i < k then i else i + 1]
    {
    }
  }

  lemma DistinctKeysSnoc<T>(init: seq<(bytes, T)>, y: (bytes, T))
    requires DistinctKeys(init)
    requires forall i :: 0 <= i < |init| ==> init[i].0 != y.0
    ensures DistinctKeys(init + [y])
  {
  }

  /** Rearranging rows cannot make two keys equal. */
  lemma {:induction false} DistinctKeysPermutation<T>(a: seq<(bytes, T)>, b: seq<(bytes, T)>)
    requires DistinctKeys(a) && multiset(a) == multiset(b)
    ensures DistinctKeys(b)
  {
    if b != [] {
      var init, y := b[..|b| - 1], b[|b| - 1];
      var k := PermutationRemove(b, a);
      var rest := a[..k] + a[k + 1..];
      DistinctKeysRemove(a, k);
      DistinctKeysPermutation(rest, init);
      forall i | 0 <= i < |init|
        ensures init[i].0 != y.0
      {
        assert init[i] in multiset(rest);
      }
      DistinctKeysSnoc(init, y);
      assert b == init + [y];
    }
  }

  /** Two sorted arrangements of the same rows with distinct keys start with the same row. */
  lemma SortedHeadsAgree<T>(a: seq<(bytes, T)>, b: seq<(bytes, T)>)
    requires SortedByKey(a) && SortedByKey(b) && DistinctKeys(a)
    requires multiset(a) == multiset(b) && a != []
    ensures b != [] && a[0] == b[0]
  {
    assert a[0] in multiset(b);
    assert b[0] in multiset(a);
    var k :| 0 <= k < |a| && a[k] == b[0];
    var m :| 0 <= m < |b| && b[m] == a[0];
    if k != 0 {
      if m == 0 {
        assert false;
      } else {
        SortedDistinctStrict(a, 0, k);
        assert false;
      }
    }
  }

  /** Two sorted arrangements of the same rows with distinct keys are identical. */
  lemma {:induction false} SortedUnique<T>(a: seq<(bytes, T)>, b: seq<(bytes, T)>)
    requires SortedByKey(a) && SortedByKey(b) && DistinctKeys(a)
    requires multiset(a) == multiset(b)
    ensures a == b
  {
    if a == [] {
      assert |multiset(b)| == 0;
    } else {
      SortedHeadsAgree(a, b);
      assert multiset(a[1..]) == multiset(b[1..]) by {
        assert a == [a[0]] + a[1..] && b == [b[0]] + b[1..];
        assert multiset(a) == multiset(a[1..]) + multiset{a[0]};
        assert multiset(b) == multiset(b[1..]) + multiset{a[0]};
        MultisetCancel(multiset(a[1..]), multiset(b[1..]), a[0]);
      }
      SortedUnique(a[1..], b[1..]);
      assert a == [a[0]] + a[1..] && b == [b[0]] + b[1..];
    }
  }

  /**
   * The sorted rows do not depend on the order they came in: any rearrangement
   * of rows with distinct keys sorts to the same sequence.
   */
  lemma SortByKeyPermutationInvariant<T>(p: seq<(bytes, T)>, q: seq<(bytes, T)>)
    requires DistinctKeys(p) && multiset(p) == multiset(q)
    ensures SortByKey(p) == SortByKey(q)
  {
    SortByKeySorted(p);
    SortByKeySorted(q);
    DistinctKeysPermutation(p, SortByKey(p));
    SortedUnique(SortByKey(p), SortByKey(q));
  }

  /** The rows of `s` whose key is `k`, in their order in `s`. */
  function RowsWithKey<T>(s: seq<(bytes, T)>, k: bytes): (r: seq<(bytes, T)>)
    ensures |r| <= |s|
    ensures forall i :: 0 <= i < |r| ==> r[i].0 == k
  {
    if s == [] then []
    else RowsWithKey(s[..|s| - 1], k) + (if s[|s| - 1].0 == k then [s[|s| - 1]] else [])
  }

  lemma {:induction false} RowsWithKeyConcat<T>(a: seq<(bytes, T)>, b: seq<(bytes, T)>, k: bytes)
    ensures RowsWithKey(a + b, k) == RowsWithKey(a, k) + RowsWithKey(b, k)
  {
    if b == [] {
      assert a + b == a;
    } else {
      var init := b[..|b| - 1];
      assert (a + b)[..|a + b| - 1] == a + init;
      RowsWithKeyConcat(a, init, k);
    }
  }

  lemma RowsWithKeyOne<T>(x: (bytes, T), k: bytes)
    ensures RowsWithKey([x], k) == if x.0 == k then [x] else []
  {
    assert [x][..0] == [];
  }

  /** Inserting `x` puts it after every row that shares its key. */
  lemma {:induction false} InsertByKeyStable<T>(s: seq<(bytes, T)>, x: (bytes, T), k: bytes)
    ensures RowsWithKey(InsertByKey(s, x), k) == RowsWithKey(s, k) + RowsWithKey([x], k)
  {
    if s == [] || !Below(x.0, s[|s| - 1].0) {
      RowsWithKeyConcat(s, [x], k);
    } else {
      var init, last := s[..|s| - 1], s[|s| - 1];
      assert s == init + [last];
      InsertByKeyStable(init, x, k);
      RowsWithKeyConcat(InsertByKey(init, x), [last], k);
      RowsWithKeyConcat(init, [last], k);
      BelowTrichotomy(x.0, last.0);
      RowsWithKeyOne(x, k);
      RowsWithKeyOne(last, k);
    }
  }

  /**
   * The sort is stable: for every key, the rows with that key come out in the
   * order they went in.
   */
  lemma {:induction false} SortByKeyStable<T>(s: seq<(bytes, T)>, k: bytes)
    ensures RowsWithKey(SortByKey(s), k) == RowsWithKey(s, k)
  {
    if s != [] {
      var init, last := s[..|s| - 1], s[|s| - 1];
      assert s == init + [last];
      SortByKeyStable(init, k);
      InsertByKeyStable(SortByKey(init), last, k);
      RowsWithKeyConcat(init, [last], k);
    }
  }

  /**
   * One step of the in-place insertion sort: the row at `i` moves left past the
   * rows before it whose keys compare above its own.
   */
  method InsertRow<T>(a0: seq<(bytes, T)>, i: nat) returns (a: seq<(bytes, T)>)
    requires i < |a0|
    ensures |a| == |a0|
    ensures a[..i + 1] == InsertByKey(a0[..i], a0[i])
    ensures a[i + 1..] == a0[i + 1..]
  {
    var x := a0[i];
    a := a0;
    var j := i;
    while j > 0 && Below(x.0, a[j - 1].0)
      invariant 0 <= j <= i < |a| == |a0|
      invariant a == a0[..j] + [a[j]] + a0[j..i] + a0[i + 1..]
      invariant InsertByKey(a0[..i], x) == InsertByKey(a0[..j], x) + a0[j..i]
    {
      ShiftRowRight(a0, a, i, j);
      InsertByKeyStep(a0, x, i, j);
      a := a[j := a[j - 1]];
      j := j - 1;
    }
    InsertRowPlace(a0, a, i, j);
    a := a[j := x];
  }

  /** The loop step of `InsertRow`: the row before the gap moves into it. */
  lemma ShiftRowRight<T>(a0: seq<(bytes, T)>, a: seq<(bytes, T)>, i: int, j: int)
    requires 0 < j <= i < |a0| == |a|
    requires a == a0[..j] + [a[j]] + a0[j..i] + a0[i + 1..]
    ensures a[j - 1] == a0[j - 1]
    ensures a[j := a[j - 1]] == a0[..j - 1] + [a0[j - 1]] + a0[j - 1..i] + a0[i + 1..]
  {
    assert a[j - 1] == a0[..j][j - 1];
    assert a0[..j] == a0[..j - 1] + [a0[j - 1]];
    assert a0[j - 1..i] == [a0[j - 1]] + a0[j..i];
  }

  /** Passing a row whose key is above `x` moves it from the sorted prefix to the shifted part. */
  lemma InsertByKeyStep<T>(a0: seq<(bytes, T)>, x: (bytes, T), i: int, j: int)
    requires 0 < j <= i < |a0| && Below(x.0, a0[j - 1].0)
    ensures InsertByKey(a0[..j], x) + a0[j..i] == InsertByKey(a0[..j - 1], x) + a0[j - 1..i]
  {
    assert a0[..j][..j - 1] == a0[..j - 1];
    assert a0[j - 1..i] == [a0[j - 1]] + a0[j..i];
  }

  /** When the loop of `InsertRow` stops, `x` belongs in the gap. */
  lemma InsertRowPlace<T>(a0: seq<(bytes, T)>, a: seq<(bytes, T)>, i: int, j: int)
    requires 0 <= j <= i < |a0| == |a|
    requires a == a0[..j] + [a[j]] + a0[j..i] + a0[i + 1..]
    requires InsertByKey(a0[..i], a0[i]) == InsertByKey(a0[..j], a0[i]) + a0[j..i]
    requires j == 0 || !Below(a0[i].0, a[j - 1].0)
    ensures a[j := a0[i]][..i + 1] == InsertByKey(a0[..i], a0[i])
    ensures a[j := a0[i]][i + 1..] == a0[i + 1..]
  {
    var x := a0[i];
    if j > 0 {
      assert a[j - 1] == a0[..j][j - 1];
    }
    assert InsertByKey(a0[..j], x) == a0[..j] + [x];
    var b := a[j := x];
    assert b == a0[..j] + [x] + a0[j..i] + a0[i + 1..];
    assert b[..i + 1] == a0[..j] + [x] + a0[j..i];
  }

  /**
   * `usort($rows, fn($a, $b) => strcmp($a[0], $b[0]))`, modelled as an insertion
   * sort that works in place on the array of rows.
   */
  method UsortByKey<T>(rows: seq<(bytes, T)>) returns (a: seq<(bytes, T)>)
    ensures a == SortByKey(rows)
  {
    a := rows;
    var i := 0;
    while i < |a|
      invariant 0 <= i <= |a| == |rows|
      invariant a[..i] == SortByKey(rows[..i])
      invariant a[i..] == rows[i..]
    {
      ghost var before := a;
      a := InsertRow(a, i);
      assert before[i] == rows[i];
      assert SortByKey(rows[..i + 1]) == InsertByKey(SortByKey(rows[..i]), rows[i]) by {
        assert rows[..i + 1][..i] == rows[..i];
      }
      assert a[i + 1..] == rows[i + 1..] by {
        assert before[i + 1..] == before[i..][1..];
      }
      i := i + 1;
    }
    assert rows[..|rows|] == rows;
  }
}
