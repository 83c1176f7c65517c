/** The standard library's stable sort of pairs by their key. */
module Sorting {
  import opened Common

  datatype Keyed<T> = Keyed(key: real, value: T)

  /** Puts `x` behind everything whose key is no greater. */
  function Insert<T>(x: Keyed<T>, s: seq<Keyed<T>>): seq<Keyed<T>> {
    if s == [] then [x]
    else if x.key < s[0].key then [x] + s
    else [s[0]] + Insert(x, s[1..])
  }

  function SortByKey<T>(s: seq<Keyed<T>>): seq<Keyed<T>> {
    if s == [] then [] else Insert(s[|s| - 1], SortByKey(s[..|s| - 1]))
  }

  ghost predicate Sorted<T>(s: seq<Keyed<T>>) {
    forall i, j :: 0 <= i < j < |s| ==> s[i].key <= s[j].key
  }

  lemma {:induction false} InsertContents<T>(x: Keyed<T>, s: seq<Keyed<T>>)
    ensures multiset(Insert(x, s)) == multiset(s) + multiset{x}
    decreases |s|
  {
    if s != [] && x.key >= s[0].key {
      assert s == [s[0]] + s[1..];
      InsertContents(x, s[1..]);
    }
  }

  lemma {:induction false} InsertSorted<T>(x: Keyed<T>, s: seq<Keyed<T>>)
    requires Sorted(s)
    ensures Sorted(Insert(x, s))
    decreases |s|
  {
    if s != [] && x.key >= s[0].key {
      InsertSorted(x, s[1..]);
      InsertContents(x, s[1..]);
      var t := Insert(x, s[1..]);
      forall i | 0 <= i < |t|
        ensures s[0].key <= t[i].key
      {
        assert t[i] in multiset(t);
        assert t[i] == x || t[i] in s[1..];
      }
    }
  }

  /** Sorting reorders, and the keys come out ascending. */
  lemma {:induction false} SortSorts<T>(s: seq<Keyed<T>>)
    ensures multiset(SortByKey(s)) == multiset(s) && Sorted(SortByKey(s))
    ensures |SortByKey(s)| == |s|
    decreases |s|
  {
    if s != [] {
      var n := |s| - 1;
      SortSorts(s[..n]);
      InsertSorted(s[n], SortByKey(s[..n]));
      InsertContents(s[n], SortByKey(s[..n]));
      assert s == s[..n] + [s[n]];
    }
    assert |multiset(SortByKey(s))| == |multiset(s)|;
  }

  /** No value occurs twice. */
  ghost predicate Distinct<T>(hits: seq<Keyed<T>>) {
    forall i, j :: 0 <= i < j < |hits| ==> hits[i].value != hits[j].value
  }

  lemma {:induction false} DistinctCounts<T>(a: seq<Keyed<T>>, h: Keyed<T>)
    requires Distinct(a)
    ensures multiset(a)[h] <= 1
    decreases |a|
  {
    if a != [] {
      var n := |a| - 1;
      assert a == a[..n] + [a[n]];
      assert a[n] !in a[..n];
      DistinctCounts(a[..n], h);
    }
  }

  lemma RepeatCounts<T>(b: seq<Keyed<T>>, i: nat, j: nat)
    requires i < j < |b| && b[i] == b[j]
    ensures multiset(b)[b[i]] >= 2
  {
    assert b == b[..j] + b[j..];
    assert b[i] == b[..j][i] && b[..j][i] in b[..j];
    assert b[j] == b[j..][0] && b[j..][0] in b[j..];
  }

  lemma ReorderKeepsDistinct<T>(a: seq<Keyed<T>>, b: seq<Keyed<T>>)
    requires Distinct(a) && multiset(a) == multiset(b)
    ensures Distinct(b)
  {
    forall i, j | 0 <= i < j < |b|
      ensures b[i].value != b[j].value
    {
      assert b[i] in multiset(a) && b[j] in multiset(a);
      if b[i] == b[j] {
        RepeatCounts(b, i, j);
        DistinctCounts(a, b[i]);
        assert false;
      }
    }
  }

  /** Sorting neither loses, adds nor repeats anything. */
  lemma SortKeeps<T>(hits: seq<Keyed<T>>)
    ensures forall h :: h in SortByKey(hits) <==> h in hits
    ensures Distinct(hits) ==> Distinct(SortByKey(hits))
    ensures Sorted(SortByKey(hits))
  {
    SortSorts(hits);
    var r := SortByKey(hits);
    forall h
      ensures h in r <==> h in hits
    {
      assert h in r <==> h in multiset(r);
      assert h in hits <==> h in multiset(hits);
    }
    if Distinct(hits) {
      ReorderKeepsDistinct(hits, r);
    }
  }

  lemma SortMember<T>(s: seq<Keyed<T>>, h: Keyed<T>)
    ensures h in SortByKey(s) <==> h in s
  {
    SortSorts(s);
    assert h in SortByKey(s) <==> h in multiset(SortByKey(s));
    assert h in s <==> h in multiset(s);
  }

  /** The entries with one key, in order. */
  function WithKey<T>(s: seq<Keyed<T>>, key: real): seq<Keyed<T>> {
    if s == [] then [] else (if s[0].key == key then [s[0]] else []) + WithKey(s[1..], key)
  }

  lemma WithKeyOne<T>(x: Keyed<T>, key: real)
    ensures WithKey([x], key) == if x.key == key then [x] else []
  {
    assert [x][1..] == [];
    assert WithKey([x], key) == (if x.key == key then [x] else []) + [];
  }

  lemma {:induction false} WithKeyConcat<T>(a: seq<Keyed<T>>, b: seq<Keyed<T>>, key: real)
    ensures WithKey(a + b, key) == WithKey(a, key) + WithKey(b, key)
    decreases |a|
  {
    if a == [] {
      assert a + b == b;
    } else {
      WithKeyConcat(a[1..], b, key);
      assert (a + b)[1..] == a[1..] + b;
      ConcatAssociates(if a[0].key == key then [a[0]] else [], WithKey(a[1..], key), WithKey(b, key));
    }
  }

  lemma {:induction false} NoneWithKey<T>(s: seq<Keyed<T>>, key: real)
    requires forall i :: 0 <= i < |s| ==> s[i].key > key
    ensures WithKey(s, key) == []
    decreases |s|
  {
    if s != [] {
      NoneWithKey(s[1..], key);
    }
  }

  lemma {:induction false} InsertStable<T>(x: Keyed<T>, s: seq<Keyed<T>>, key: real)
    requires Sorted(s)
    ensures WithKey(Insert(x, s), key) == WithKey(s, key) + if x.key == key then [x] else []
    decreases |s|
  {
    hide WithKey;
    WithKeyOne(x, key);
    if s == [] {
      WithKeyConcat([], [x], key);
      assert [] + [x] == [x];
    } else if x.key < s[0].key {
      WithKeyConcat([x], s, key);
      if x.key == key {
        NoneWithKey(s, key);
      }
    } else {
      InsertStable(x, s[1..], key);
      WithKeyConcat([s[0]], Insert(x, s[1..]), key);
      WithKeyConcat([s[0]], s[1..], key);
      assert s == [s[0]] + s[1..];
      ConcatAssociates(WithKey([s[0]], key), WithKey(s[1..], key), if x.key == key then [x] else []);
    }
  }

  /** Equal keys keep their order. */
  lemma {:induction false} SortStable<T>(s: seq<Keyed<T>>, key: real)
    ensures WithKey(SortByKey(s), key) == WithKey(s, key)
    decreases |s|
  {
    if s != [] {
      var n := |s| - 1;
      SortStable(s[..n], key);
      SortSorts(s[..n]);
      hide WithKey, Insert, Sorted;
      InsertStable(s[n], SortByKey(s[..n]), key);
      WithKeyConcat(s[..n], [s[n]], key);
      WithKeyOne(s[n], key);
      assert s == s[..n] + [s[n]];
    }
  }
}
