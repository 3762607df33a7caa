/** JavaScript strings as sequences of UTF-16 code units, and the ordering and sorting the homepage
    digests build on. */
module Utf16 {
  type CodeUnit = n: int | 0 <= n < 0x10000
  type Text = seq<CodeUnit>

  /** JavaScript's `<` on strings: lexicographic by code unit, a proper prefix first. */
  predicate Less(a: Text, b: Text) {
    b != [] && (a == [] || a[0] < b[0] || (a[0] == b[0] && Less(a[1..], b[1..])))
  }

  /** `k` is where the two texts part: the first ends there, or has the smaller unit. */
  ghost predicate PartsAt(a: Text, b: Text, k: nat) {
    k <= |a| && k < |b| && a[..k] == b[..k] && (k == |a| || a[k] < b[k])
  }

  /** The first unit in which two texts differ decides, the smaller unit first, and a proper beginning comes first. */
  lemma {:induction false} LessExactly(a: Text, b: Text)
    ensures Less(a, b) <==> exists k: nat :: PartsAt(a, b, k)
  {
    forall k: nat | PartsAt(a, b, k) ensures k > 0 ==> a[0] == b[0] { PartsHead(a, b, k); }
    if a != [] && b != [] && a[0] == b[0] {
      LessExactly(a[1..], b[1..]);
      if k: nat :| PartsAt(a[1..], b[1..], k) {
        assert a[..k + 1] == [a[0]] + a[1..][..k] && b[..k + 1] == [b[0]] + b[1..][..k];
        assert PartsAt(a, b, k + 1);
      }
      if k: nat :| PartsAt(a, b, k) {
        assert k > 0;
        assert a[1..][..k - 1] == a[..k][1..] && b[1..][..k - 1] == b[..k][1..];
        assert PartsAt(a[1..], b[1..], k - 1);
      }
    } else if Less(a, b) {
      assert PartsAt(a, b, 0);
    }
  }

  lemma PartsHead(a: Text, b: Text, k: nat)
    requires PartsAt(a, b, k)
    ensures k > 0 ==> a[0] == b[0]
  {
    if k > 0 { assert a[..k][0] == b[..k][0]; }
  }

  lemma {:induction false} LessTransitive(a: Text, b: Text, c: Text)
    requires Less(a, b) && Less(b, c)
    ensures Less(a, c)
  {
    if a != [] && a[0] == b[0] == c[0] {
      LessTransitive(a[1..], b[1..], c[1..]);
    }
  }

  lemma {:induction false} LessTotal(a: Text, b: Text)
    ensures (if Less(a, b) then 1 else 0) + (if Less(b, a) then 1 else 0) + (if a == b then 1 else 0) == 1
  {
    if a != [] && b != [] && a[0] == b[0] {
      LessTotal(a[1..], b[1..]);
      assert a == [a[0]] + a[1..] && b == [b[0]] + b[1..];
    }
  }

  // ---- Sorting a list by a text key -----------------------------------------------------------

  ghost predicate DistinctKeys<T>(key: T -> Text, xs: seq<T>) {
    forall i, j :: 0 <= i < j < |xs| ==> key(xs[i]) != key(xs[j])
  }

  ghost predicate Ascending<T>(key: T -> Text, xs: seq<T>) {
    forall i, j :: 0 <= i < j < |xs| ==> Less(key(xs[i]), key(xs[j]))
  }

  function Insert<T>(key: T -> Text, x: T, xs: seq<T>): seq<T> {
    if xs == [] then [x]
    else if Less(key(xs[0]), key(x)) then [xs[0]] + Insert(key, x, xs[1..])
    else [x] + xs
  }

  /** The stable sort by key that `Array.prototype.sort` performs with `compareStrings`. */
  function Sort<T>(key: T -> Text, xs: seq<T>): seq<T> {
    if xs == [] then [] else Insert(key, xs[0], Sort(key, xs[1..]))
  }

  lemma {:induction false} InsertKeeps<T>(key: T -> Text, x: T, xs: seq<T>)
    ensures multiset(Insert(key, x, xs)) == multiset(xs) + multiset{x}
    ensures |Insert(key, x, xs)| == |xs| + 1
  {
    if xs != [] {
      InsertKeeps(key, x, xs[1..]);
      assert xs == [xs[0]] + xs[1..];
    }
  }

  lemma {:induction false} SortKeeps<T>(key: T -> Text, xs: seq<T>)
    ensures multiset(Sort(key, xs)) == multiset(xs)
    ensures |Sort(key, xs)| == |xs|
    ensures forall x :: x in Sort(key, xs) ==> x in xs
    ensures forall x :: x in xs ==> x in Sort(key, xs)
  {
    if xs != [] {
      SortKeeps(key, xs[1..]);
      InsertKeeps(key, xs[0], Sort(key, xs[1..]));
      assert xs == [xs[0]] + xs[1..];
    }
    assert forall x :: x in Sort(key, xs) ==> x in multiset(Sort(key, xs));
    assert forall x :: x in xs ==> x in multiset(xs);
  }

  lemma {:induction false} InsertAscends<T>(key: T -> Text, x: T, xs: seq<T>)
    requires Ascending(key, xs)
    requires forall y :: y in xs ==> key(y) != key(x)
    ensures Ascending(key, Insert(key, x, xs))
  {
    if xs != [] {
      LessTotal(key(xs[0]), key(x));
      if Less(key(xs[0]), key(x)) {
        InsertAscends(key, x, xs[1..]);
        InsertKeeps(key, x, xs[1..]);
        var r := Insert(key, x, xs[1..]);
        forall j | 0 <= j < |r| ensures Less(key(xs[0]), key(r[j])) {
          assert r[j] in multiset(r);
        }
      } else {
        forall j | 0 <= j < |xs| ensures Less(key(x), key(xs[j])) {
          if j > 0 { LessTransitive(key(x), key(xs[0]), key(xs[j])); }
        }
      }
    }
  }

  /** Distinct keys make the sorted list strictly ascending. */
  lemma {:induction false} SortAscends<T>(key: T -> Text, xs: seq<T>)
    requires DistinctKeys(key, xs)
    ensures Ascending(key, Sort(key, xs))
  {
    if xs != [] {
      SortAscends(key, xs[1..]);
      SortKeeps(key, xs[1..]);
      var rest := Sort(key, xs[1..]);
      forall y | y in rest ensures key(y) != key(xs[0]) {
        assert y in xs[1..];
        var k :| 0 <= k < |xs[1..]| && xs[1..][k] == y;
        assert key(xs[0]) != key(xs[k + 1]);
      }
      InsertAscends(key, xs[0], rest);
    }
  }

  /** Only one strictly ascending list has a given set of elements: every sort gives this one. */
  lemma {:induction false} AscendingUnique<T>(key: T -> Text, xs: seq<T>, ys: seq<T>)
    requires Ascending(key, xs) && Ascending(key, ys)
    requires forall x :: x in xs <==> x in ys
    ensures xs == ys
  {
    if xs == [] {
      assert forall k :: 0 <= k < |ys| ==> ys[k] in xs;
    } else {
      assert xs[0] in xs;
      assert ys[0] in ys;
      var i :| 0 <= i < |ys| && ys[i] == xs[0];
      var j :| 0 <= j < |xs| && xs[j] == ys[0];
      LessTotal(key(xs[0]), key(ys[0]));
      assert xs[0] == ys[0];
      forall x ensures x in xs[1..] <==> x in ys[1..] {
        LessTotal(key(x), key(x));
        if x in xs[1..] {
          assert x in xs;
          var k :| 0 <= k < |ys| && ys[k] == x;
          assert k != 0;
          assert ys[1..][k - 1] == x;
        }
        if x in ys[1..] {
          assert x in ys;
          var k :| 0 <= k < |xs| && xs[k] == x;
          assert k != 0;
          assert xs[1..][k - 1] == x;
        }
      }
      AscendingUnique(key, xs[1..], ys[1..]);
      assert xs == [xs[0]] + xs[1..] && ys == [ys[0]] + ys[1..];
    }
  }

  /** Sorting forgets the original order: two lists with the same distinct-keyed elements sort alike. */
  lemma SortCanonical<T>(key: T -> Text, xs: seq<T>, ys: seq<T>)
    requires DistinctKeys(key, xs) && DistinctKeys(key, ys)
    requires forall x :: x in xs <==> x in ys
    ensures Sort(key, xs) == Sort(key, ys)
  {
    SortAscends(key, xs);
    SortAscends(key, ys);
    SortKeeps(key, xs);
    SortKeeps(key, ys);
    AscendingUnique(key, Sort(key, xs), Sort(key, ys));
  }
}
