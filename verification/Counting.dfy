/** Counting arguments shared by the checks that compare lengths and filters of lists. */
module Counting {
  ghost predicate Distinct<K>(keys: seq<K>) {
    forall i, j :: 0 <= i < j < |keys| ==> keys[i] != keys[j]
  }

  lemma AppendDistinct<K>(keys: seq<K>, more: seq<K>)
    ensures Distinct(keys + more) <==> Distinct(keys) && Distinct(more) && forall k :: k in more ==> k !in keys
  {
    var all := keys + more;
    if Distinct(all) {
      forall i, j | 0 <= i < j < |keys| ensures keys[i] != keys[j] { assert all[i] != all[j]; }
      forall i, j | 0 <= i < j < |more| ensures more[i] != more[j] { assert all[|keys| + i] != all[|keys| + j]; }
      forall i, j | 0 <= i < |keys| && 0 <= j < |more| ensures keys[i] != more[j] {
        assert all[i] != all[|keys| + j];
      }
    }
    if Distinct(keys) && Distinct(more) && forall k :: k in more ==> k !in keys {
      forall i, j | 0 <= i < j < |all| ensures all[i] != all[j] {
        assert j >= |keys| ==> all[j] in more;
        assert i < |keys| ==> all[i] in keys;
      }
    }
  }

  /** How many elements of `m` the keys account for. */
  ghost function Covered<K>(keys: seq<K>, m: multiset<K>): nat {
    if keys == [] then 0 else Covered(keys[..|keys| - 1], m) + m[keys[|keys| - 1]]
  }

  lemma {:induction false} CoveredWithout<K>(keys: seq<K>, m: multiset<K>, k: K)
    requires k !in keys
    ensures Covered(keys, m[k := 0]) == Covered(keys, m)
  {
    if keys != [] { CoveredWithout(keys[..|keys| - 1], m, k); }
  }

  /** Distinct keys account for everything exactly when every element is one of them. */
  lemma {:induction false} CoverExactly<K>(keys: seq<K>, m: multiset<K>)
    requires Distinct(keys)
    ensures Covered(keys, m) <= |m|
    ensures Covered(keys, m) == |m| <==> forall k :: k in m ==> k in keys
  {
    if keys == [] {
      assert |m| == 0 <==> m == multiset{};
      if m != multiset{} { var k :| k in m; }
    } else {
      var n := |keys| - 1;
      var last := keys[n];
      var rest := m[last := 0];
      assert keys == keys[..n] + [last];
      assert |rest| == |m| - m[last];
      CoverExactly(keys[..n], rest);
      CoveredWithout(keys[..n], m, last);
      assert forall k :: k in rest <==> k in m && k != last;
    }
  }

  /** A list as what stands before one place, that place, and what stands after it. */
  lemma Split<T>(s: seq<T>, k: nat)
    requires k < |s|
    ensures s == s[..k] + [s[k]] + s[k + 1..]
    ensures multiset(s) == multiset(s[..k]) + multiset{s[k]} + multiset(s[k + 1..])
    ensures multiset(s) == multiset(s[..k] + s[k + 1..]) + multiset{s[k]}
  {
    assert s == s[..k] + [s[k]] + s[k + 1..];
  }

  /** When every key accounts for the same number of elements. */
  lemma {:induction false} CoveredEvenly<K>(keys: seq<K>, m: multiset<K>, each: nat)
    requires forall i :: 0 <= i < |keys| ==> m[keys[i]] == each
    ensures Covered(keys, m) == each * |keys|
  {
    if keys != [] {
      CoveredEvenly(keys[..|keys| - 1], m, each);
      assert each * |keys| == each * (|keys| - 1) + each;
    }
  }

  lemma {:induction false} DistinctCounts<K>(keys: seq<K>, k: K)
    requires Distinct(keys)
    ensures multiset(keys)[k] == if k in keys then 1 else 0
  {
    if keys != [] {
      var n := |keys| - 1;
      assert keys == keys[..n] + [keys[n]];
      DistinctCounts(keys[..n], k);
    }
  }

  /** As many distinct keys as the set has elements, all in it: they are the set. */
  lemma {:induction false} DistinctFill<K>(keys: seq<K>, s: set<K>)
    requires Distinct(keys) && |keys| == |s| && forall i :: 0 <= i < |keys| ==> keys[i] in s
    ensures forall k :: k in s <==> k in keys
  {
    if keys != [] {
      var n := |keys| - 1;
      var rest := s - {keys[n]};
      assert keys == keys[..n] + [keys[n]];
      DistinctFill(keys[..n], rest);
      assert forall k :: k in s <==> k in rest || k == keys[n];
    }
  }

  /** Each key once, where it stands first. */
  function Unique<K(==)>(keys: seq<K>): seq<K> {
    if keys == [] then []
    else
      var before, last := Unique(keys[..|keys| - 1]), keys[|keys| - 1];
      if last in keys[..|keys| - 1] then before else before + [last]
  }

  /** It drops something exactly when some key is there twice. */
  lemma {:induction false} UniqueExactly<K>(keys: seq<K>)
    ensures Distinct(Unique(keys))
    ensures (forall k :: k in Unique(keys) ==> k in keys) && (forall k :: k in keys ==> k in Unique(keys))
    ensures |Unique(keys)| <= |keys|
    ensures |Unique(keys)| == |keys| <==> Distinct(keys)
  {
    if keys != [] {
      var before, last := keys[..|keys| - 1], keys[|keys| - 1];
      assert keys == before + [last];
      UniqueExactly(before);
      AppendDistinct(before, [last]);
      AppendDistinct(Unique(before), [last]);
    }
  }

  // ---- Rows filtered by a key ---------------------------------------------------------------------------

  /** The rows under one key, in their order. */
  function Filter<T, K(==)>(rows: seq<T>, key: T -> K, k: K): seq<T> {
    if rows == [] then []
    else
      var before := Filter(rows[..|rows| - 1], key, k);
      if key(rows[|rows| - 1]) == k then before + [rows[|rows| - 1]] else before
  }

  function Keys<T, K>(rows: seq<T>, key: T -> K): seq<K> {
    if rows == [] then [] else Keys(rows[..|rows| - 1], key) + [key(rows[|rows| - 1])]
  }

  function Concat<T>(lists: seq<seq<T>>): seq<T> {
    if lists == [] then [] else Concat(lists[..|lists| - 1]) + lists[|lists| - 1]
  }

  lemma {:induction false} FilterCounts<T, K>(rows: seq<T>, key: T -> K, k: K)
    ensures |Filter(rows, key, k)| == multiset(Keys(rows, key))[k]
    ensures |Keys(rows, key)| == |rows|
  {
    if rows != [] { FilterCounts(rows[..|rows| - 1], key, k); }
  }

  /** A row occurs as often in the list as among the rows of its own key, and nowhere else. */
  lemma {:induction false} FilterKeeps<T, K>(rows: seq<T>, key: T -> K, k: K, row: T)
    ensures multiset(Filter(rows, key, k))[row] == if key(row) == k then multiset(rows)[row] else 0
  {
    if rows != [] {
      var n := |rows| - 1;
      assert rows == rows[..n] + [rows[n]];
      FilterKeeps(rows[..n], key, k, row);
    }
  }

  lemma {:induction false} FilterAppend<T, K>(a: seq<T>, b: seq<T>, key: T -> K, k: K)
    ensures Filter(a + b, key, k) == Filter(a, key, k) + Filter(b, key, k)
  {
    if b == [] {
      assert a + b == a;
    } else {
      FilterAppend(a, b[..|b| - 1], key, k);
      assert (a + b)[..|a + b| - 1] == a + b[..|b| - 1];
    }
  }

  /** Rows all under one key are kept whole by it and dropped by any other. */
  lemma {:induction false} FilterUniform<T, K>(rows: seq<T>, key: T -> K, k: K, own: K)
    requires forall i :: 0 <= i < |rows| ==> key(rows[i]) == own
    ensures Filter(rows, key, k) == if k == own then rows else []
  {
    if rows != [] {
      FilterUniform(rows[..|rows| - 1], key, k, own);
      assert rows == rows[..|rows| - 1] + [rows[|rows| - 1]];
    }
  }

  lemma {:induction false} KeysCover<T, K>(rows: seq<T>, key: T -> K, row: T)
    ensures row in rows ==> key(row) in multiset(Keys(rows, key))
  {
    if rows != [] && row != rows[|rows| - 1] {
      assert rows == rows[..|rows| - 1] + [rows[|rows| - 1]];
      KeysCover(rows[..|rows| - 1], key, row);
    }
  }

  /** `lists[i]` is what the rows of `keys[i]` are expected to be: `each` of them, under that key. */
  ghost predicate Expected<T(!new), K>(keys: seq<K>, lists: seq<seq<T>>, key: T -> K, each: nat) {
    && |lists| == |keys| && Distinct(keys)
    && (forall i :: 0 <= i < |keys| ==> |lists[i]| == each)
    && (forall i, row :: 0 <= i < |keys| && row in lists[i] ==> key(row) == keys[i])
  }

  lemma ExpectedInit<T(!new), K>(keys: seq<K>, lists: seq<seq<T>>, key: T -> K, each: nat)
    requires Expected(keys, lists, key, each) && keys != []
    ensures Expected(keys[..|keys| - 1], lists[..|keys| - 1], key, each)
  {}

  /** A row occurs among all the expected rows as often as in the list of its own key. */
  lemma {:induction false} ConcatCounts<T(!new), K>(keys: seq<K>, lists: seq<seq<T>>, key: T -> K, each: nat, row: T)
    requires Expected(keys, lists, key, each)
    ensures key(row) !in keys ==> multiset(Concat(lists))[row] == 0
    ensures forall i :: 0 <= i < |keys| && keys[i] == key(row) ==>
            multiset(Concat(lists))[row] == multiset(lists[i])[row]
  {
    if keys != [] {
      var n := |keys| - 1;
      ExpectedInit(keys, lists, key, each);
      ConcatCounts(keys[..n], lists[..n], key, each, row);
      assert keys == keys[..n] + [keys[n]];
      assert multiset(Concat(lists))[row] == multiset(Concat(lists[..n]))[row] + multiset(lists[n])[row];
      if key(row) == keys[n] {
        assert key(row) !in keys[..n];
      } else {
        assert row !in lists[n];
      }
    }
  }

  /** With distinct keys: the list has the expected length and the expected rows under each key exactly
      when it is, in some order, all the expected rows and no other. */
  lemma ExactlyExpected<T(!new), K>(rows: seq<T>, keys: seq<K>, lists: seq<seq<T>>, key: T -> K, each: nat)
    requires Expected(keys, lists, key, each)
    ensures && |rows| == each * |keys|
            && (forall i :: 0 <= i < |keys| ==> multiset(Filter(rows, key, keys[i])) == multiset(lists[i]))
       <==> multiset(rows) == multiset(Concat(lists))
  {
    if && |rows| == each * |keys|
       && forall i :: 0 <= i < |keys| ==> multiset(Filter(rows, key, keys[i])) == multiset(lists[i])
    {
      FilteredAll(rows, keys, lists, key, each);
    }
    if multiset(rows) == multiset(Concat(lists)) {
      AllFiltered(rows, keys, lists, key, each);
    }
  }

  /** No row is a stray: each stands under one of the keys. */
  ghost predicate AllUnder<T, K>(rows: seq<T>, key: T -> K, keys: seq<K>) {
    forall row :: row in rows ==> key(row) in keys
  }

  lemma UnderUnique<T, K>(rows: seq<T>, key: T -> K, keys: seq<K>)
    ensures AllUnder(rows, key, Unique(keys)) <==> AllUnder(rows, key, keys)
  {
    UniqueExactly(keys);
  }

  lemma UniqueCovers<T, K>(rows: seq<T>, keys: seq<K>, key: T -> K, each: nat)
    requires forall i :: 0 <= i < |keys| ==> |Filter(rows, key, keys[i])| == each
    ensures Covered(Unique(keys), multiset(Keys(rows, key))) == each * |Unique(keys)|
  {
    var found, once := multiset(Keys(rows, key)), Unique(keys);
    UniqueExactly(keys);
    forall i | 0 <= i < |once| ensures found[once[i]] == each {
      assert once[i] in once;
      assert once[i] in keys;
      FilterCounts(rows, key, once[i]);
    }
    CoveredEvenly(once, found, each);
  }

  lemma UniqueFill<T, K>(rows: seq<T>, keys: seq<K>, key: T -> K, each: nat)
    requires forall i :: 0 <= i < |keys| ==> |Filter(rows, key, keys[i])| == each
    ensures AllUnder(rows, key, Unique(keys)) <==> each * |Unique(keys)| == |rows|
  {
    UniqueExactly(keys);
    UniqueCovers(rows, keys, key, each);
    CoverExactly(Unique(keys), multiset(Keys(rows, key)));
    KeysAll(rows, key, Unique(keys));
  }

  lemma ProductsAlike(each: nat, a: nat, b: nat)
    requires each > 0
    ensures each * a == each * b <==> a == b
  {
    if a < b { assert each * b == each * a + each * (b - a); }
    if b < a { assert each * a == each * b + each * (a - b); }
  }

  /** When the length is right and every key finds its number of rows, all rows stand under the keys exactly when
      no key is listed twice: a repeated key leaves room for rows of no key. */
  lemma StraysExactly<T, K>(rows: seq<T>, keys: seq<K>, key: T -> K, each: nat)
    requires each > 0 && |rows| == each * |keys|
    requires forall i :: 0 <= i < |keys| ==> |Filter(rows, key, keys[i])| == each
    ensures AllUnder(rows, key, keys) <==> Distinct(keys)
  {
    UniqueExactly(keys);
    ProductsAlike(each, |Unique(keys)|, |keys|);
    UniqueFill(rows, keys, key, each);
    UnderUnique(rows, key, keys);
  }

  /** All rows stand under some keys exactly when all their keys are among them. */
  lemma KeysAll<T, K>(rows: seq<T>, key: T -> K, keys: seq<K>)
    ensures |multiset(Keys(rows, key))| == |rows|
    ensures (forall k :: k in multiset(Keys(rows, key)) ==> k in keys) <==> AllUnder(rows, key, keys)
  {
    KeysAt(rows, key);
    forall row | row in rows ensures key(row) in multiset(Keys(rows, key)) { KeysCover(rows, key, row); }
    forall k | k in multiset(Keys(rows, key)) ensures exists row :: row in rows && key(row) == k {
      var i :| 0 <= i < |rows| && Keys(rows, key)[i] == k;
      assert rows[i] in rows;
    }
  }

  lemma {:induction false} KeysAt<T, K>(rows: seq<T>, key: T -> K)
    ensures |Keys(rows, key)| == |rows|
    ensures forall i :: 0 <= i < |rows| ==> Keys(rows, key)[i] == key(rows[i])
  {
    if rows != [] { KeysAt(rows[..|rows| - 1], key); }
  }

  /** A row under one of the keys occurs among the rows as often as among the expected ones. */
  lemma FilteredCount<T(!new), K>(
      rows: seq<T>, keys: seq<K>, lists: seq<seq<T>>, key: T -> K, each: nat, row: T, i: nat)
    requires Expected(keys, lists, key, each) && i < |keys| && keys[i] == key(row)
    requires multiset(Filter(rows, key, keys[i])) == multiset(lists[i])
    ensures multiset(rows)[row] == multiset(Concat(lists))[row]
  {
    ConcatCounts(keys, lists, key, each, row);
    FilterKeeps(rows, key, key(row), row);
  }

  lemma FilteredUnder<T(!new), K>(rows: seq<T>, keys: seq<K>, lists: seq<seq<T>>, key: T -> K, each: nat)
    requires Expected(keys, lists, key, each) && |rows| == each * |keys|
    requires forall i :: 0 <= i < |keys| ==> multiset(Filter(rows, key, keys[i])) == multiset(lists[i])
    ensures forall row :: row in rows ==> key(row) in keys
  {
    forall i | 0 <= i < |keys| ensures |Filter(rows, key, keys[i])| == each {
      assert |multiset(Filter(rows, key, keys[i]))| == |multiset(lists[i])|;
    }
    if each > 0 { StraysExactly(rows, keys, key, each); }
  }

  lemma FilteredAll<T(!new), K>(rows: seq<T>, keys: seq<K>, lists: seq<seq<T>>, key: T -> K, each: nat)
    requires Expected(keys, lists, key, each) && |rows| == each * |keys|
    requires forall i :: 0 <= i < |keys| ==> multiset(Filter(rows, key, keys[i])) == multiset(lists[i])
    ensures multiset(rows) == multiset(Concat(lists))
    ensures forall row :: row in rows ==> key(row) in keys
  {
    FilteredUnder(rows, keys, lists, key, each);
    forall row ensures multiset(rows)[row] == multiset(Concat(lists))[row] {
      if key(row) in keys {
        var i :| 0 <= i < |keys| && keys[i] == key(row);
        FilteredCount(rows, keys, lists, key, each, row, i);
      } else {
        ConcatCounts(keys, lists, key, each, row);
      }
    }
  }

  lemma AllFiltered<T(!new), K>(rows: seq<T>, keys: seq<K>, lists: seq<seq<T>>, key: T -> K, each: nat)
    requires Expected(keys, lists, key, each) && multiset(rows) == multiset(Concat(lists))
    ensures |rows| == each * |keys|
    ensures forall i :: 0 <= i < |keys| ==> multiset(Filter(rows, key, keys[i])) == multiset(lists[i])
  {
    assert |rows| == |multiset(rows)| == |Concat(lists)|;
    ConcatSize(lists, each);
    forall i | 0 <= i < |keys| ensures multiset(Filter(rows, key, keys[i])) == multiset(lists[i]) {
      forall row ensures multiset(Filter(rows, key, keys[i]))[row] == multiset(lists[i])[row] {
        ConcatCounts(keys, lists, key, each, row);
        FilterKeeps(rows, key, keys[i], row);
      }
    }
  }

  lemma {:induction false} ConcatSize<T>(lists: seq<seq<T>>, each: nat)
    requires forall i :: 0 <= i < |lists| ==> |lists[i]| == each
    ensures |Concat(lists)| == each * |lists|
  {
    if lists != [] {
      var n := |lists| - 1;
      ConcatSize(lists[..n], each);
      assert |Concat(lists)| == |Concat(lists[..n])| + each;
      assert each * |lists| == each * n + each;
    }
  }
}
