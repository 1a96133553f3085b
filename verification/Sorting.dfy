/** Python's `sorted(..., key=...)`: a stable sort. A key is a number, a pair of numbers or a string;
    sorting in reverse, which is stable too, is sorting by the negated key. */
module Sorting {
  import opened Collections

  datatype Key = Key(first: real, second: real) | Text(text: string)

  /** The order of Python strings. */
  predicate TextLess(a: string, b: string) {
    if b == [] then false
    else if a == [] then true
    else if a[0] != b[0] then a[0] < b[0]
    else TextLess(a[1..], b[1..])
  }

  /** A string comes before another if it is a proper start of it, or has the smaller character where
      they first differ. */
  lemma {:induction false} TextLessMeaning(a: string, b: string)
    ensures TextLess(a, b) <==> a < b || exists i :: 0 <= i < |a| && i < |b| && a[..i] == b[..i] && a[i] < b[i]
  {
    if a != [] && b != [] && a[0] == b[0] {
      TextLessMeaning(a[1..], b[1..]);
      assert a == [a[0]] + a[1..] && b == [b[0]] + b[1..];
      if i :| 0 <= i < |a[1..]| && i < |b[1..]| && a[1..][..i] == b[1..][..i] && a[1..][i] < b[1..][i] {
        assert a[..i + 1] == [a[0]] + a[1..][..i] && b[..i + 1] == [b[0]] + b[1..][..i];
        assert a[i + 1] < b[i + 1];
      }
      if i :| 0 <= i < |a| && i < |b| && a[..i] == b[..i] && a[i] < b[i] {
        assert a[1..][..i - 1] == a[..i][1..] && b[1..][..i - 1] == b[..i][1..];
        assert a[1..][i - 1] < b[1..][i - 1];
      }
    } else if a != [] && b != [] {
      assert a[..0] == b[..0];
    }
  }

  /** Keys of both kinds are never compared in one sort; here strings come last. */
  predicate Less(a: Key, b: Key) {
    if a.Text? then b.Text? && TextLess(a.text, b.text)
    else b.Text? || a.first < b.first || (a.first == b.first && a.second < b.second)
  }

  lemma {:induction false} TextOrder(a: string, b: string, c: string)
    ensures !(TextLess(a, b) && TextLess(b, a))
    ensures !TextLess(a, b) && !TextLess(b, a) ==> a == b
    ensures !TextLess(a, b) && !TextLess(b, c) ==> !TextLess(a, c)
  {
    if a != [] && b != [] && a[0] == b[0] {
      TextOrder(a[1..], b[1..], if c == [] then [] else c[1..]);
      assert a == [a[0]] + a[1..] && b == [b[0]] + b[1..];
    }
  }

  /** Keys are totally ordered. */
  lemma {:induction false} LessOrder(a: Key, b: Key, c: Key)
    ensures !(Less(a, b) && Less(b, a))
    ensures !Less(a, b) && !Less(b, a) ==> a == b
    ensures !Less(a, b) && !Less(b, c) ==> !Less(a, c)
  {
    if a.Text? && b.Text? {
      TextOrder(a.text, b.text, if c.Text? then c.text else []);
    }
  }

  /** Puts x behind everything that does not come after it. */
  function Insert<T(!new)>(s: seq<T>, x: T, key: T -> Key): seq<T> {
    if s == [] || !Less(key(x), key(s[|s| - 1])) then s + [x]
    else Insert(s[..|s| - 1], x, key) + [s[|s| - 1]]
  }

  function StableSort<T(!new)>(s: seq<T>, key: T -> Key): seq<T> {
    if s == [] then [] else Insert(StableSort(s[..|s| - 1], key), s[|s| - 1], key)
  }

  ghost predicate Sorted<T(!new)>(s: seq<T>, key: T -> Key) {
    forall i, j :: 0 <= i < j < |s| ==> !Less(key(s[j]), key(s[i]))
  }

  /** The elements with one key, in order. */
  ghost function WithKey<T(!new)>(s: seq<T>, key: T -> Key, k: Key): seq<T> {
    if s == [] then []
    else
      var last := s[|s| - 1];
      WithKey(s[..|s| - 1], key, k) + if key(last) == k then [last] else []
  }

  lemma {:induction false} WithKeySnoc<T(!new)>(s: seq<T>, x: T, key: T -> Key, k: Key)
    ensures WithKey(s + [x], key, k) == WithKey(s, key, k) + if key(x) == k then [x] else []
  {
    assert (s + [x])[..|s|] == s;
  }

  lemma {:induction false} InsertMembers<T(!new)>(s: seq<T>, x: T, key: T -> Key)
    ensures multiset(Insert(s, x, key)) == multiset(s) + multiset{x}
    ensures forall y :: y in Insert(s, x, key) ==> y in s || y == x
  {
    if s != [] && Less(key(x), key(s[|s| - 1])) {
      InsertMembers(s[..|s| - 1], x, key);
      Snoc(s);
    }
  }

  lemma {:induction false} InsertSorts<T(!new)>(s: seq<T>, x: T, key: T -> Key)
    requires Sorted(s, key)
    ensures Sorted(Insert(s, x, key), key)
  {
    if s != [] && Less(key(x), key(s[|s| - 1])) {
      var init, last := s[..|s| - 1], s[|s| - 1];
      InsertSorts(init, x, key);
      InsertMembers(init, x, key);
      var r := Insert(init, x, key);
      LessOrder(key(x), key(last), key(x));
      forall i | 0 <= i < |r| ensures !Less(key(last), key(r[i])) {
        assert r[i] in r;
      }
    } else if s != [] {
      forall i | 0 <= i < |s| ensures !Less(key(x), key(s[i])) {
        LessOrder(key(x), key(s[|s| - 1]), key(s[i]));
      }
    }
  }

  lemma {:induction false} InsertStable<T(!new)>(s: seq<T>, x: T, key: T -> Key, k: Key)
    requires Sorted(s, key)
    ensures WithKey(Insert(s, x, key), key, k) == WithKey(s + [x], key, k)
  {
    WithKeySnoc(s, x, key, k);
    if s != [] && Less(key(x), key(s[|s| - 1])) {
      var init, last := s[..|s| - 1], s[|s| - 1];
      InsertStable(init, x, key, k);
      LessOrder(key(x), key(last), k);
      WithKeySnoc(init, x, key, k);
      WithKeySnoc(Insert(init, x, key), last, key, k);
    }
  }

  /** The sort orders the same elements by key and keeps elements with equal keys in their order. */
  lemma {:induction false} SortIsStable<T(!new)>(s: seq<T>, key: T -> Key, k: Key)
    ensures Sorted(StableSort(s, key), key)
    ensures multiset(StableSort(s, key)) == multiset(s)
    ensures WithKey(StableSort(s, key), key, k) == WithKey(s, key, k)
  {
    if s != [] {
      var init, last := s[..|s| - 1], s[|s| - 1];
      SortIsStable(init, key, k);
      InsertSorts(StableSort(init, key), last, key);
      InsertMembers(StableSort(init, key), last, key);
      InsertStable(StableSort(init, key), last, key, k);
      WithKeySnoc(StableSort(init, key), last, key, k);
      Snoc(s);
    }
  }

  lemma {:induction false} SortMembers<T(!new)>(s: seq<T>, key: T -> Key)
    ensures |StableSort(s, key)| == |s|
    ensures forall x :: x in StableSort(s, key) <==> x in s
  {
    SortIsStable(s, key, Key(0.0, 0.0));
    assert |multiset(StableSort(s, key))| == |multiset(s)|;
    forall x ensures x in StableSort(s, key) <==> x in s {
      assert x in multiset(StableSort(s, key)) <==> x in multiset(s);
    }
  }

  lemma {:induction false} SortSorted<T(!new)>(s: seq<T>, key: T -> Key)
    requires Sorted(s, key)
    ensures StableSort(s, key) == s
  {
    if s != [] {
      SortSorted(s[..|s| - 1], key);
      Snoc(s);
    }
  }

  /** The first k of a sorted list: nothing left out goes before one of them. */
  lemma {:induction false} CutRanked<T(!new)>(ranked: seq<T>, key: T -> Key, k: nat, x: T)
    requires Sorted(ranked, key) && k <= |ranked|
    ensures Count(ranked[..k], x) <= Count(ranked, x)
    ensures k == |ranked| ==> ranked[..k] == ranked
    ensures x in ranked && x !in ranked[..k] ==> forall i :: 0 <= i < k ==> !Less(key(x), key(ranked[i]))
  {
    assert ranked == ranked[..k] + ranked[k..];
    CountAppend(ranked[..k], ranked[k..], x);
    if x in ranked && x !in ranked[..k] {
      var j :| 0 <= j < |ranked| && ranked[j] == x;
      assert j >= k;
    }
  }

  lemma {:induction false} SortCounts<T(!new)>(s: seq<T>, key: T -> Key, x: T)
    ensures |StableSort(s, key)| == |s| && Count(StableSort(s, key), x) == Count(s, x)
  {
    SortIsStable(s, key, Key(0.0, 0.0));
    SortMembers(s, key);
    CountMultiset(s, x);
    CountMultiset(StableSort(s, key), x);
  }

  ghost predicate SameByKey<T(!new)>(a: seq<T>, b: seq<T>, key: T -> Key) {
    forall k :: WithKey(a, key, k) == WithKey(b, key, k)
  }

  /** A sorted list is determined by its elements of each key, so being sorted and stable pins the
      sort down. */
  lemma {:induction false} SortUnique<T(!new)>(a: seq<T>, b: seq<T>, key: T -> Key)
    requires Sorted(a, key) && Sorted(b, key) && SameByKey(a, b, key)
    ensures a == b
  {
    if a == [] {
      if b != [] { LastHasKey(b, key); }
    } else {
      SameLast(a, b, key);
      SameInits(a, b, key);
      SortUnique(a[..|a| - 1], b[..|b| - 1], key);
      Snoc(a);
      Snoc(b);
    }
  }

  lemma {:induction false} SameInits<T(!new)>(a: seq<T>, b: seq<T>, key: T -> Key)
    requires a != [] && b != [] && a[|a| - 1] == b[|b| - 1] && SameByKey(a, b, key)
    ensures SameByKey(a[..|a| - 1], b[..|b| - 1], key)
  {
    forall k {:trigger WithKey(a[..|a| - 1], key, k)} | true
      ensures WithKey(a[..|a| - 1], key, k) == WithKey(b[..|b| - 1], key, k)
    {
      assert WithKey(a, key, k) == WithKey(b, key, k);
      SameInit(WithKey(a[..|a| - 1], key, k), WithKey(b[..|b| - 1], key, k),
               if key(a[|a| - 1]) == k then [a[|a| - 1]] else []);
    }
  }

  lemma {:induction false} LastHasKey<T(!new)>(s: seq<T>, key: T -> Key)
    requires s != []
    ensures var same := WithKey(s, key, key(s[|s| - 1]));
      same != [] && same[|same| - 1] == s[|s| - 1]
  {
  }

  lemma {:induction false} SameLast<T(!new)>(a: seq<T>, b: seq<T>, key: T -> Key)
    requires a != [] && Sorted(a, key) && Sorted(b, key) && SameByKey(a, b, key)
    ensures b != [] && a[|a| - 1] == b[|b| - 1]
  {
    var k := key(a[|a| - 1]);
    LastHasKey(a, key);
    assert WithKey(a, key, k) == WithKey(b, key, k);
    KeyWithin(b, key, k);
    LastHasKey(b, key);
    assert WithKey(a, key, key(b[|b| - 1])) == WithKey(b, key, key(b[|b| - 1]));
    KeyWithin(a, key, key(b[|b| - 1]));
    LessOrder(k, key(b[|b| - 1]), k);
  }

  lemma {:induction false} SameInit<T>(s: seq<T>, t: seq<T>, u: seq<T>)
    requires s + u == t + u
    ensures s == t
  {
    assert |s| == |t|;
    assert s == (s + u)[..|s|] && t == (t + u)[..|s|];
  }

  lemma {:induction false} KeyWithin<T(!new)>(s: seq<T>, key: T -> Key, k: Key)
    requires Sorted(s, key) && WithKey(s, key, k) != []
    ensures s != [] && !Less(key(s[|s| - 1]), k)
  {
    if key(s[|s| - 1]) != k {
      KeyWithin(s[..|s| - 1], key, k);
      LessOrder(key(s[|s| - 1]), key(s[|s| - 2]), k);
    } else {
      LessOrder(k, k, k);
    }
  }
}
