/** Lists of records looked up by a string identifier, the way the adoption
    center scans its Python lists: `[x for x in xs if key(x) != k]`,
    `next((x for x in xs if key(x) == k), None)` and `xs.remove(x)`. */
module Keyed {
  import opened Wrappers

  /** No two records in `xs` share an identifier. */
  predicate UniqueKeys<T>(xs: seq<T>, key: T -> string) {
    forall i, j :: 0 <= i < j < |xs| ==> key(xs[i]) != key(xs[j])
  }

  /** Nothing in `xs` carries identifier `k`. */
  predicate KeyAbsent<T>(xs: seq<T>, key: T -> string, k: string) {
    forall i :: 0 <= i < |xs| ==> key(xs[i]) != k
  }

  /** The list comprehension that drops every record with identifier `k`. */
  function RemoveKey<T(==,!new)>(xs: seq<T>, key: T -> string, k: string): (r: seq<T>)
    ensures forall x :: x in r <==> x in xs && key(x) != k
    ensures forall x :: multiset(r)[x] == if key(x) == k then 0 else multiset(xs)[x]
    ensures KeyAbsent(xs, key, k) ==> r == xs
  {
    if |xs| == 0 then []
    else
      var rest := RemoveKey(xs[1..], key, k);
      assert xs == [xs[0]] + xs[1..];
      assert KeyAbsent(xs, key, k) ==> KeyAbsent(xs[1..], key, k);
      if key(xs[0]) == k then rest else [xs[0]] + rest
  }

  /** Filtering distributes over concatenation, so survivors keep their
      relative order. */
  lemma {:induction false} RemoveKeyAppend<T(!new)>(a: seq<T>, b: seq<T>, key: T -> string, k: string)
    ensures RemoveKey(a + b, key, k) == RemoveKey(a, key, k) + RemoveKey(b, key, k)
    decreases |a|
  {
    if |a| == 0 {
      assert a + b == b;
    } else {
      var ab := a + b;
      assert ab[0] == a[0] && ab[1..] == a[1..] + b;
      RemoveKeyAppend(a[1..], b, key, k);
    }
  }

  /** Index of the first record with identifier `k`, or `None`. */
  function FindKey<T>(xs: seq<T>, key: T -> string, k: string): (r: Option<nat>)
    ensures r.None? <==> KeyAbsent(xs, key, k)
    ensures r.Some? ==> r.value < |xs| && key(xs[r.value]) == k
                        && KeyAbsent(xs[..r.value], key, k)
  {
    if |xs| == 0 then None
    else if key(xs[0]) == k then Some(0)
    else
      match FindKey(xs[1..], key, k)
      case None => None
      case Some(i) =>
        assert xs[..i + 1] == [xs[0]] + xs[1..][..i];
        Some(i + 1)
  }

  /** A record carrying `k` with none before it is the one `FindKey` finds. */
  lemma FindFirst<T>(xs: seq<T>, key: T -> string, k: string, j: nat)
    requires j < |xs| && key(xs[j]) == k && KeyAbsent(xs[..j], key, k)
    ensures FindKey(xs, key, k) == Some(j)
  {
    var m := FindKey(xs, key, k).value;
    assert forall i :: 0 <= i < j ==> key(xs[i]) != k by {
      forall i | 0 <= i < j
        ensures key(xs[i]) != k
      {
        assert xs[..j][i] == xs[i];
      }
    }
    assert forall i :: 0 <= i < m ==> key(xs[i]) != k by {
      forall i | 0 <= i < m
        ensures key(xs[i]) != k
      {
        assert xs[..m][i] == xs[i];
      }
    }
  }

  /** `xs.remove(xs[i])` for the first occurrence at `i`: the list without that
      one position. */
  function RemoveAt<T(==)>(xs: seq<T>, i: nat): (r: seq<T>)
    requires i < |xs|
    ensures |r| == |xs| - 1
    ensures r[..i] == xs[..i] && r[i..] == xs[i + 1..]
    ensures multiset(r) == multiset(xs) - multiset{xs[i]}
  {
    assert xs == xs[..i] + [xs[i]] + xs[i + 1..];
    xs[..i] + xs[i + 1..]
  }

  /** Dropping a unique record's position leaves its identifier absent. */
  lemma RemoveAtUnique<T>(xs: seq<T>, key: T -> string, i: nat)
    requires i < |xs| && UniqueKeys(xs, key)
    ensures KeyAbsent(RemoveAt(xs, i), key, key(xs[i]))
    ensures UniqueKeys(RemoveAt(xs, i), key)
  {
    var r := RemoveAt(xs, i);
    forall j | 0 <= j < |r|
      ensures key(r[j]) != key(xs[i])
    {
      if j < i { assert r[j] == xs[j]; } else { assert r[j] == xs[j + 1]; }
    }
    forall a, b | 0 <= a < b < |r|
      ensures key(r[a]) != key(r[b])
    {
      var a' := if a < i then a else a + 1;
      var b' := if b < i then b else b + 1;
      assert r[a] == xs[a'] && r[b] == xs[b'];
    }
  }
}
