/** Datatypes shared by every module of the model. */
module Common {

  datatype Option<+T> = None | Some(value: T) {
    /** The held value, or a default when there is none. */
    function GetOr(default: T): T {
      match this
      case Some(v) => v
      case None => default
    }
  }

  datatype Result<+T, +E> = Ok(value: T) | Err(error: E)

  type Uuid = nat

  type U8 = n: int | 0 <= n < 0x100

  function Min(a: int, b: int): int {
    if a < b then a else b
  }

  function Max(a: int, b: int): int {
    if a < b then b else a
  }

  function Abs(a: int): nat {
    if a < 0 then -a else a
  }

  /** Subtraction on unsigned integers that stops at zero. */
  function SaturatingSub(a: nat, b: nat): nat {
    if a < b then 0 else a - b
  }

  lemma MultipleGrows(e: int, d: nat)
    requires e > 0
    ensures e * d >= d
  {
  }

  /** Division with remainder has one result. */
  lemma QuotientUnique(x: nat, d: nat, q: nat, r: nat)
    requires x == q * d + r && r < d
    ensures x / d == q && x % d == r
  {
    var e := x / d - q;
    assert x == x / d * d + x % d;
    assert e * d == r - x % d;
    if e > 0 {
      MultipleGrows(e, d);
      assert false;
    } else if e < 0 {
      MultipleGrows(-e, d);
      assert false;
    }
  }

  const I32_MAX: int := 2147483647

  /** `order` lists every element of `s` exactly once: the order in which a hash map yields its keys. */
  ghost predicate Enumerates<T(!new)>(order: seq<T>, s: set<T>) {
    && NoRepeats(order)
    && (forall x :: x in order <==> x in s)
  }

  ghost predicate NoRepeats<T>(s: seq<T>) {
    forall i, j :: 0 <= i < j < |s| ==> s[i] != s[j]
  }

  lemma AppendFresh<T>(s: seq<T>, x: T)
    requires NoRepeats(s) && x !in s
    ensures NoRepeats(s + [x])
  {
  }

  lemma InsertSize<K, V>(m: map<K, V>, k: K, v: V)
    requires k !in m
    ensures |m[k := v]| == |m| + 1
  {
    assert m[k := v].Keys == m.Keys + {k};
  }

  lemma RemoveSize<K, V>(m: map<K, V>, k: K)
    requires k in m
    ensures |m - {k}| == |m| - 1
  {
    assert (m - {k}).Keys == m.Keys - {k};
  }

  /** A sequence without repetitions is no longer than a set that holds its elements. */
  lemma {:induction false} DistinctBound<T>(q: seq<T>, cells: set<T>)
    requires forall i :: 0 <= i < |q| ==> q[i] in cells
    requires forall i, j :: 0 <= i < j < |q| ==> q[i] != q[j]
    ensures |q| <= |cells|
  {
    if q != [] {
      DistinctBound(q[1..], cells - {q[0]});
    }
  }

  lemma ConcatAssociates<T>(a: seq<T>, b: seq<T>, c: seq<T>)
    ensures a + b + c == a + (b + c)
  {
  }

  lemma ThreeParts<T>(a: seq<T>, b: seq<T>, c: seq<T>)
    ensures
      var s := a + b + c;
      s == a + (b + c) && s[..|a|] == a && s[|a|..|a| + |b|] == b && s[|a| + |b|..] == c
  {
  }

  /** The concatenation of the images of the elements. */
  function FlatMap<A, B>(f: A -> seq<B>, s: seq<A>): seq<B> {
    if s == [] then [] else f(s[0]) + FlatMap(f, s[1..])
  }

  lemma {:induction false} FlatMapAppend<A, B>(f: A -> seq<B>, a: seq<A>, b: seq<A>)
    ensures FlatMap(f, a + b) == FlatMap(f, a) + FlatMap(f, b)
    decreases |a|
  {
    if a == [] {
      assert a + b == b;
    } else {
      FlatMapAppend(f, a[1..], b);
      assert (a + b)[1..] == a[1..] + b;
    }
  }

  /** One more element of `s`, as a loop appends it. */
  lemma FlatMapStep<A, B>(f: A -> seq<B>, s: seq<A>, i: nat)
    requires i < |s|
    ensures FlatMap(f, s[..i + 1]) == FlatMap(f, s[..i]) + f(s[i])
  {
    FlatMapAppend(f, s[..i], [s[i]]);
    assert s[..i + 1] == s[..i] + [s[i]];
    assert FlatMap(f, [s[i]]) == f(s[i]) + [];
  }

  /** The same step for a buffer that starts with other bytes. */
  lemma AppendStep<A, B>(f: A -> seq<B>, s: seq<A>, i: nat, head: seq<B>, buf: seq<B>)
    requires i < |s| && buf == head + FlatMap(f, s[..i])
    ensures buf + f(s[i]) == head + FlatMap(f, s[..i + 1])
  {
    FlatMapStep(f, s, i);
    ThreeParts(head, FlatMap(f, s[..i]), f(s[i]));
  }
}
