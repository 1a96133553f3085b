/** Vocabulary shared by the models: identifiers, options and results, Python's
    insertion-ordered dict and slices, counting in sequences, and small facts
    about sequences that proofs call by name. */
module Collections {

  /** An identifier; the source uses strings such as `executive:ceo`. */
  datatype Id = Id(text: string)

  datatype Option<+T> = None | Some(value: T)

  datatype Result<+T, +E> = Ok(value: T) | Err(error: E)

  ghost predicate Distinct<T(!new)>(s: seq<T>) {
    forall i, j :: 0 <= i < j < |s| ==> s[i] != s[j]
  }

  /** Number of occurrences of x in s. */
  function Count<T(==)>(s: seq<T>, x: T): nat {
    if s == [] then 0 else (if s[0] == x then 1 else 0) + Count(s[1..], x)
  }

  lemma CountAppend<T>(s: seq<T>, t: seq<T>, x: T)
    ensures Count(s + t, x) == Count(s, x) + Count(t, x)
  {
    if s == [] {
      assert s + t == t;
    } else {
      assert (s + t)[1..] == s[1..] + t;
    }
  }

  lemma CountPositive<T>(s: seq<T>, x: T)
    ensures Count(s, x) > 0 <==> x in s
    ensures Count(s, x) <= |s|
  {
  }

  lemma CountDistinct<T(!new)>(s: seq<T>, x: T)
    requires Distinct(s)
    ensures Count(s, x) == if x in s then 1 else 0
  {
    if s != [] {
      CountDistinct(s[1..], x);
    }
  }

  lemma {:induction false} DistinctByCount<T(!new)>(s: seq<T>)
    ensures Distinct(s) <==> forall x :: Count(s, x) <= 1
  {
    if Distinct(s) {
      forall x { CountDistinct(s, x); }
    } else {
      var i, j :| 0 <= i < j < |s| && s[i] == s[j];
      CountAppend(s[..j], s[j..], s[i]);
      assert s[..j] + s[j..] == s && s[i] == s[..j][i] && s[i] in s[..j] && s[i] in s[j..];
      CountPositive(s[..j], s[i]);
      CountPositive(s[j..], s[i]);
    }
  }

  lemma DistinctSnoc<T(!new)>(s: seq<T>, x: T)
    requires Distinct(s) && x !in s
    ensures Distinct(s + [x])
  {
  }

  /** A sequence without repetitions whose elements lie in a set is no longer than the set. */
  lemma DistinctFits<T(!new)>(s: seq<T>, bound: set<T>)
    requires Distinct(s)
    requires forall x :: x in s ==> x in bound
    ensures |s| <= |bound|
    ensures |s| == |bound| ==> forall x :: x in bound ==> x in s
  {
    if s != [] {
      var last := s[|s| - 1];
      DistinctFits(s[..|s| - 1], bound - {last});
      assert |s| == |bound| ==> forall x :: x in bound ==> x == last || x in s[..|s| - 1];
    }
  }

  function Elements<T(!new)>(s: seq<T>): set<T> {
    set x | x in s
  }

  lemma ElementsSnoc<T(!new)>(s: seq<T>, x: T)
    ensures Elements(s + [x]) == Elements(s) + {x}
  {
  }

  lemma DistinctCardinality<T(!new)>(s: seq<T>)
    requires Distinct(s)
    ensures |Elements(s)| == |s|
  {
    if s != [] {
      var last := s[|s| - 1];
      DistinctCardinality(s[..|s| - 1]);
      assert Elements(s) == Elements(s[..|s| - 1]) + {last};
    }
  }

  /** A sequence of distinct elements of t has t's length exactly when it has all of them. */
  lemma SameLength<T(!new)>(s: seq<T>, t: seq<T>)
    requires Distinct(s) && Distinct(t) && forall x :: x in s ==> x in t
    ensures |s| == |t| <==> forall x :: x in t ==> x in s
  {
    DistinctCardinality(t);
    DistinctFits(s, Elements(t));
    if forall x :: x in t ==> x in s {
      DistinctCardinality(s);
      DistinctFits(t, Elements(s));
    }
  }

  lemma DistinctConcat<T(!new)>(s: seq<T>, t: seq<T>)
    requires Distinct(s) && Distinct(t) && forall x :: x in s ==> x !in t
    ensures Distinct(s + t)
  {
    forall i, j | 0 <= i < j < |s + t|
      ensures (s + t)[i] != (s + t)[j]
    {
      if i < |s| <= j {
        assert s[i] in s && t[j - |s|] in t;
      }
    }
  }

  lemma ConcatAssociative<T>(s: seq<T>, t: seq<T>, u: seq<T>)
    ensures s + (t + u) == s + t + u
  {
  }

  lemma Snoc<T>(s: seq<T>)
    requires s != []
    ensures s[..|s| - 1] + [s[|s| - 1]] == s
  {
  }

  lemma TailMember<T>(s: seq<T>, x: T)
    requires s != [] && x in s[1..]
    ensures x in s
  {
  }

  lemma TakeNext<T>(s: seq<T>, i: nat)
    requires i < |s|
    ensures s[..i + 1] == s[..i] + [s[i]]
  {
  }

  lemma TakeAll<T>(s: seq<T>)
    ensures s[..|s|] == s
  {
  }

  lemma PrefixTail<T>(s: seq<T>, t: seq<T>)
    requires s != [] && s <= t
    ensures s[0] == t[0] && s[1..] <= t[1..]
  {
  }

  /** Python's `s[:n]` keeps this many elements of a list of the given size; negative n counts from
      the end. */
  function Cut(size: nat, n: int): (k: nat)
    ensures k <= size
    ensures 0 <= n <= size ==> k == n
    ensures n > size ==> k == size
    ensures n < 0 ==> k == 0 || k == size + n
    ensures n < 0 <= size + n ==> k == size + n
  {
    if n < 0 then (if size + n < 0 then 0 else size + n) else if n > size then size else n
  }

  function Flatten<T>(ss: seq<seq<T>>): seq<T> {
    if ss == [] then [] else ss[0] + Flatten(ss[1..])
  }

  lemma FlattenSnoc<T>(ss: seq<seq<T>>, s: seq<T>)
    ensures Flatten(ss + [s]) == Flatten(ss) + s
  {
    if ss != [] {
      assert (ss + [s])[1..] == ss[1..] + [s];
    }
  }

  /** The elements that are among the known ones, in order. */
  function Keep<T(==,!new)>(s: seq<T>, known: set<T>): (r: seq<T>)
    ensures forall d :: d in r <==> d in s && d in known
  {
    if s == [] then []
    else Keep(s[..|s| - 1], known) + if s[|s| - 1] in known then [s[|s| - 1]] else []
  }

  lemma KeepAll<T(!new)>(s: seq<T>, known: set<T>)
    requires forall d :: d in s ==> d in known
    ensures Keep(s, known) == s
  {
  }

  lemma KeepCount<T(!new)>(s: seq<T>, known: set<T>, x: T)
    ensures Count(Keep(s, known), x) == if x in known then Count(s, x) else 0
  {
    if s != [] {
      var n := |s| - 1;
      KeepCount(s[..n], known, x);
      Snoc(s);
      CountAppend(s[..n], [s[n]], x);
      CountAppend(Keep(s[..n], known), if s[n] in known then [s[n]] else [], x);
    }
  }

  /** Keep the elements satisfying p, in order. */
  function Filter<T(!new)>(s: seq<T>, p: T -> bool): (r: seq<T>)
    ensures forall x :: x in r <==> x in s && p(x)
  {
    if s == [] then [] else (if p(s[0]) then [s[0]] else []) + Filter(s[1..], p)
  }

  lemma {:induction false} FilterCons<T(!new)>(s: seq<T>, p: T -> bool)
    requires s != []
    ensures Filter(s, p) == if p(s[0]) then [s[0]] + Filter(s[1..], p) else Filter(s[1..], p)
  {
  }

  lemma FilterCount<T(!new)>(s: seq<T>, p: T -> bool, x: T)
    ensures Count(Filter(s, p), x) == if p(x) then Count(s, x) else 0
  {
    if s != [] {
      FilterCount(s[1..], p, x);
      FilterCons(s, p);
      assert ([s[0]] + Filter(s[1..], p))[1..] == Filter(s[1..], p);
    }
  }

  lemma {:induction false} FilterConcat<T(!new)>(s: seq<T>, t: seq<T>, p: T -> bool)
    ensures Filter(s + t, p) == Filter(s, p) + Filter(t, p)
  {
    if s == [] {
      assert s + t == t;
    } else {
      assert (s + t)[1..] == s[1..] + t;
      FilterConcat(s[1..], t, p);
    }
  }

  lemma {:induction false} FilterSnoc<T(!new)>(s: seq<T>, x: T, p: T -> bool)
    ensures Filter(s + [x], p) == Filter(s, p) + if p(x) then [x] else []
  {
    FilterConcat(s, [x], p);
    FilterCons([x], p);
  }

  lemma FilterAll<T(!new)>(s: seq<T>, p: T -> bool)
    requires forall x :: x in s ==> p(x)
    ensures Filter(s, p) == s
  {
  }

  lemma FilterDistinct<T(!new)>(s: seq<T>, p: T -> bool)
    requires Distinct(s)
    ensures Distinct(Filter(s, p))
  {
    if s != [] {
      FilterDistinct(s[1..], p);
      assert s[0] !in s[1..];
    }
  }

  lemma {:induction false} FilterShorter<T(!new)>(s: seq<T>, p: T -> bool)
    ensures |Filter(s, p)| <= |s|
  {
    if s != [] { FilterShorter(s[1..], p); }
  }

  lemma {:induction false} CountMultiset<T(!new)>(s: seq<T>, x: T)
    ensures Count(s, x) == multiset(s)[x]
  {
    if s != [] {
      CountMultiset(s[1..], x);
      assert s == [s[0]] + s[1..];
    }
  }

  ghost predicate BothInOrder<T(!new)>(s: seq<T>, x: T, y: T) {
    exists m, n :: 0 <= m < n < |s| && s[m] == x && s[n] == y
  }

  /** Any two elements of r stand in s in the same order. */
  ghost predicate InOrderOf<T(!new)>(r: seq<T>, s: seq<T>) {
    forall i, j :: 0 <= i < j < |r| ==> BothInOrder(s, r[i], r[j])
  }

  lemma {:induction false} StillInOrder<T(!new)>(s: seq<T>, before: seq<T>, after: seq<T>, x: T, y: T)
    requires BothInOrder(s, x, y)
    ensures BothInOrder(before + s + after, x, y)
  {
    var m, n :| 0 <= m < n < |s| && s[m] == x && s[n] == y;
    var all, k := before + s + after, |before|;
    assert all[k + m] == x && all[k + n] == y;
  }

  /** One more element, kept or not. */
  lemma {:induction false} InOrderSnoc<T(!new)>(kept: seq<T>, s: seq<T>, last: T, keeps: bool)
    requires InOrderOf(kept, s) && forall x :: x in kept ==> x in s
    ensures InOrderOf(kept + if keeps then [last] else [], s + [last])
  {
    var all := kept + if keeps then [last] else [];
    forall i, j | 0 <= i < j < |all| ensures BothInOrder(s + [last], all[i], all[j]) {
      if j < |kept| {
        StillInOrder(s, [], [last], all[i], all[j]);
        assert [] + s + [last] == s + [last];
      } else {
        assert kept[i] in s;
        var m :| 0 <= m < |s| && s[m] == kept[i];
        assert (s + [last])[m] == all[i] && (s + [last])[|s|] == all[j];
      }
    }
  }

  lemma {:induction false} KeepInOrder<T(!new)>(s: seq<T>, known: set<T>)
    ensures InOrderOf(Keep(s, known), s)
  {
    if s != [] {
      var init, last := s[..|s| - 1], s[|s| - 1];
      KeepInOrder(init, known);
      Snoc(s);
      InOrderSnoc(Keep(init, known), init, last, last in known);
    }
  }

  lemma {:induction false} InOrderCons<T(!new)>(first: T, keeps: bool, kept: seq<T>, s: seq<T>)
    requires InOrderOf(kept, s) && forall x :: x in kept ==> x in s
    ensures InOrderOf((if keeps then [first] else []) + kept, [first] + s)
  {
    var all := (if keeps then [first] else []) + kept;
    var k := if keeps then 1 else 0;
    assert [first] + s + [] == [first] + s;
    forall i, j | 0 <= i < j < |all| ensures BothInOrder([first] + s, all[i], all[j]) {
      assert all[j] == kept[j - k];
      if i >= k {
        assert all[i] == kept[i - k];
        StillInOrder(s, [first], [], all[i], all[j]);
      } else {
        assert kept[j - k] in s;
        var n :| 0 <= n < |s| && s[n] == all[j];
        assert ([first] + s)[0] == all[i] && ([first] + s)[n + 1] == all[j];
      }
    }
  }

  lemma {:induction false} FilterInOrder<T(!new)>(s: seq<T>, p: T -> bool)
    ensures InOrderOf(Filter(s, p), s)
  {
    if s != [] {
      FilterInOrder(s[1..], p);
      InOrderCons(s[0], p(s[0]), Filter(s[1..], p), s[1..]);
      assert [s[0]] + s[1..] == s;
    }
  }

  /** A Python dict: a map together with the order in which its keys were first inserted. */
  datatype Dict<K(==,!new), V> = Dict(keys: seq<K>, items: map<K, V>) {

    ghost predicate Valid() {
      && Distinct(keys)
      && (forall k :: k in keys <==> k in items)
    }

    function Put(k: K, v: V): Dict<K, V> {
      Dict(if k in items then keys else keys + [k], items[k := v])
    }

    function Delete(k: K): Dict<K, V> {
      Dict(Filter(keys, x => x != k), items - {k})
    }
  }

  lemma PutValid<K(!new), V>(d: Dict<K, V>, k: K, v: V)
    requires d.Valid()
    ensures d.Put(k, v).Valid()
    ensures d.Put(k, v).keys == if k in d.keys then d.keys else d.keys + [k]
  {
    if k !in d.items {
      DistinctSnoc(d.keys, k);
    }
  }

  lemma DeleteValid<K(!new), V>(d: Dict<K, V>, k: K)
    requires d.Valid()
    ensures d.Delete(k).Valid()
  {
    FilterDistinct(d.keys, x => x != k);
  }

  /** Deleting a key leaves the others where they stand. */
  lemma {:induction false} DeleteAt<K(!new), V>(d: Dict<K, V>, i: nat)
    requires d.Valid() && i < |d.keys|
    ensures d.Delete(d.keys[i]).keys == d.keys[..i] + d.keys[i + 1..]
  {
    FilterOut(d.keys, i, d.keys[i]);
  }

  lemma {:induction false} FilterOut<K(!new)>(keys: seq<K>, i: nat, k: K)
    requires Distinct(keys) && i < |keys| && keys[i] == k
    ensures Filter(keys, x => x != k) == keys[..i] + keys[i + 1..]
  {
    var differs := (x: K) => x != k;
    assert keys == keys[..i] + ([k] + keys[i + 1..]);
    FilterConcat(keys[..i], [k] + keys[i + 1..], differs);
    FilterCons([k] + keys[i + 1..], differs);
    assert ([k] + keys[i + 1..])[1..] == keys[i + 1..];
    FilterAll(keys[..i], differs);
    FilterAll(keys[i + 1..], differs);
  }

  /** `d.values()` */
  function Values<K(!new), V>(d: Dict<K, V>): (vs: seq<V>)
    requires d.Valid()
    ensures |vs| == |d.keys| && forall i :: 0 <= i < |vs| ==> d.keys[i] in d.items && vs[i] == d.items[d.keys[i]]
  {
    seq(|d.keys|, i requires 0 <= i < |d.keys| => assert d.keys[i] in d.keys; d.items[d.keys[i]])
  }

  function EmptyDict<K(!new), V>(): Dict<K, V> { Dict([], map[]) }
}
