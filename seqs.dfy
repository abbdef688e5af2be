/**
  Facts about Python lists used by the model: membership, first occurrence
  (`list.index`) and removal of the first occurrence (`list.remove`).
 */
module Seqs {

  /** No element occurs twice. */
  predicate NoDup<T(==)>(xs: seq<T>) {
    forall i, j :: 0 <= i < j < |xs| ==> xs[i] != xs[j]
  }

  /** The position of the first occurrence of `x`, as Python's `list.index`. */
  function IndexOf<T(==)>(xs: seq<T>, x: T): (k: nat)
    requires x in xs
    ensures k < |xs| && xs[k] == x
  {
    if xs[0] == x then 0 else 1 + IndexOf(xs[1..], x)
  }

  /** No earlier position holds `x`: `IndexOf` finds the first occurrence. */
  lemma {:induction false} IndexOfFirst<T>(xs: seq<T>, x: T)
    requires x in xs
    ensures forall i :: 0 <= i < IndexOf(xs, x) ==> xs[i] != x
  {
    if xs[0] != x {
      IndexOfFirst(xs[1..], x);
      forall i | 1 <= i < IndexOf(xs, x) ensures xs[i] != x {
        assert xs[i] == xs[1..][i - 1];
      }
    }
  }

  /** `xs` without its first occurrence of `x`; `xs` itself when `x` does not occur. */
  function RemoveFirst<T(==)>(xs: seq<T>, x: T): (r: seq<T>)
    ensures |r| == if x in xs then |xs| - 1 else |xs|
    ensures x !in xs ==> r == xs
  {
    if xs == [] then []
    else if xs[0] == x then xs[1..]
    else [xs[0]] + RemoveFirst(xs[1..], x)
  }

  /** Removal takes away one occurrence of `x` when there is one, and nothing else. */
  lemma {:induction false} RemoveFirstMultiset<T>(xs: seq<T>, x: T)
    ensures multiset(RemoveFirst(xs, x)) == multiset(xs) - multiset{x}
  {
    if xs != [] {
      assert xs == [xs[0]] + xs[1..];
      if xs[0] != x {
        RemoveFirstMultiset(xs[1..], x);
        assert RemoveFirst(xs, x) == [xs[0]] + RemoveFirst(xs[1..], x);
      }
    }
  }

  /** Removal cuts out exactly the element at the first occurrence and keeps the rest in order. */
  lemma {:induction false} RemoveFirstAt<T>(xs: seq<T>, x: T)
    requires x in xs
    ensures RemoveFirst(xs, x) == xs[..IndexOf(xs, x)] + xs[IndexOf(xs, x) + 1..]
  {
    var k := IndexOf(xs, x);
    if xs[0] != x {
      var tail := xs[1..];
      var k' := IndexOf(tail, x);
      assert k == k' + 1;
      calc {
        RemoveFirst(xs, x);
        [xs[0]] + RemoveFirst(tail, x);
        { RemoveFirstAt(tail, x); }
        [xs[0]] + (tail[..k'] + tail[k' + 1..]);
        { assert tail[..k'] == xs[1..k]; assert tail[k' + 1..] == xs[k + 1..]; }
        [xs[0]] + (xs[1..k] + xs[k + 1..]);
        { assert [xs[0]] + xs[1..k] == xs[..k]; }
        xs[..k] + xs[k + 1..];
      }
    } else {
      assert k == 0 && xs[..0] == [];
    }
  }

  /** Removing from a list without duplicates keeps it duplicate-free and leaves no `x` behind. */
  lemma RemoveFirstNoDup<T>(xs: seq<T>, x: T)
    requires NoDup(xs)
    ensures NoDup(RemoveFirst(xs, x))
    ensures x !in RemoveFirst(xs, x)
  {
    if x in xs {
      RemoveFirstAt(xs, x);
      var k := IndexOf(xs, x);
      var r := RemoveFirst(xs, x);
      assert r == xs[..k] + xs[k + 1..];
      forall i | 0 <= i < |r| ensures r[i] == xs[if i < k then i else i + 1] {
      }
      forall i, j | 0 <= i < j < |r| ensures r[i] != r[j] {
        assert r[i] == xs[if i < k then i else i + 1];
        assert r[j] == xs[if j < k then j else j + 1];
      }
      forall i | 0 <= i < |r| ensures r[i] != x {
        assert r[i] == xs[if i < k then i else i + 1];
      }
    }
  }
}
