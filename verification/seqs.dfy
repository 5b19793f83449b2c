/** Folds over sequences used by the model (sums, flattening, distinctness)
    and the facts about them that the proofs rely on: they split over
    concatenation and do not depend on the order of the elements. */
module Seqs {

  /** The sum of `f` over the elements of `s`. */
  function Sum<T>(s: seq<T>, f: T -> nat): nat
  {
    if s == [] then 0 else f(s[0]) + Sum(s[1..], f)
  }

  /** The concatenation of `f` applied to each element of `s`, in order. */
  function Flatten<T, U>(s: seq<T>, f: T -> seq<U>): seq<U>
  {
    if s == [] then [] else f(s[0]) + Flatten(s[1..], f)
  }

  /** `s` without its element at index `i`. */
  function RemoveAt<T>(s: seq<T>, i: nat): (r: seq<T>)
    requires i < |s|
    ensures |r| == |s| - 1
    ensures multiset(r) + multiset{s[i]} == multiset(s)
  {
    assert s == s[..i] + [s[i]] + s[i+1..];
    s[..i] + s[i+1..]
  }

  /** No value occurs twice in `s`. */
  ghost predicate Distinct<T>(s: seq<T>)
  {
    forall x | x in multiset(s) :: multiset(s)[x] == 1
  }

  lemma SumSingleton<T>(x: T, f: T -> nat)
    ensures Sum([x], f) == f(x)
  {
    assert [x][1..] == [];
  }

  lemma FlattenSingleton<T, U>(x: T, f: T -> seq<U>)
    ensures Flatten([x], f) == f(x)
  {
    assert [x][1..] == [];
    assert f(x) + [] == f(x);
  }

  /** The sum over two elements. */
  lemma SumPair<T>(a: T, b: T, f: T -> nat)
    ensures Sum([a, b], f) == f(a) + f(b)
  {
    SumConcat([a], [b], f);
    assert [a, b] == [a] + [b];
    SumSingleton(a, f);
    SumSingleton(b, f);
  }

  /** The flattening of two elements. */
  lemma FlattenPair<T, U>(a: T, b: T, f: T -> seq<U>)
    ensures Flatten([a, b], f) == f(a) + f(b)
  {
    FlattenConcat([a], [b], f);
    assert [a, b] == [a] + [b];
    FlattenSingleton(a, f);
    FlattenSingleton(b, f);
  }

  lemma {:induction false} SumConcat<T>(a: seq<T>, b: seq<T>, f: T -> nat)
    ensures Sum(a + b, f) == Sum(a, f) + Sum(b, f)
  {
    if a == [] {
      assert a + b == b;
    } else {
      assert (a + b)[1..] == a[1..] + b;
      SumConcat(a[1..], b, f);
    }
  }

  lemma {:induction false} FlattenConcat<T, U>(a: seq<T>, b: seq<T>, f: T -> seq<U>)
    ensures Flatten(a + b, f) == Flatten(a, f) + Flatten(b, f)
  {
    if a == [] {
      assert a + b == b;
    } else {
      assert (a + b)[1..] == a[1..] + b;
      FlattenConcat(a[1..], b, f);
    }
  }

  /** Every term is part of the sum, and the sum is zero exactly when
      every term is. */
  lemma {:induction false} SumTerms<T>(s: seq<T>, f: T -> nat)
    ensures forall x :: x in s ==> f(x) <= Sum(s, f)
    ensures Sum(s, f) == 0 <==> forall x :: x in s ==> f(x) == 0
  {
    if s != [] {
      SumTerms(s[1..], f);
      assert forall x :: x in s ==> x == s[0] || x in s[1..];
    }
  }

  /** Reordering the elements does not change a sum. */
  lemma {:induction false} SumPermutation<T>(a: seq<T>, b: seq<T>, f: T -> nat)
    requires multiset(a) == multiset(b)
    ensures Sum(a, f) == Sum(b, f)
  {
    if a == [] {
      assert |multiset(b)| == 0;
    } else {
      var x := a[0];
      assert x in multiset(b);
      var i :| 0 <= i < |b| && b[i] == x;
      var b' := RemoveAt(b, i);
      DropBoth(a, b, i);
      SumPermutation(a[1..], b', f);
      SumRemoveAt(b, i, f);
    }
  }

  /** Taking the first element of `a` and the same element of `b` off two
      permutations leaves permutations. */
  lemma DropBoth<T>(a: seq<T>, b: seq<T>, i: nat)
    requires a != [] && i < |b| && b[i] == a[0]
    requires multiset(a) == multiset(b)
    ensures multiset(a[1..]) == multiset(RemoveAt(b, i))
  {
    assert a == [a[0]] + a[1..];
    var x := a[0];
    assert multiset(a) == multiset{x} + multiset(a[1..]);
    assert multiset(RemoveAt(b, i)) + multiset{x} == multiset(b);
    assert forall y :: multiset(a[1..])[y] == multiset(RemoveAt(b, i))[y] by {
      forall y ensures multiset(a[1..])[y] == multiset(RemoveAt(b, i))[y] {
        assert (multiset(a[1..]) + multiset{x})[y] == (multiset(RemoveAt(b, i)) + multiset{x})[y];
      }
    }
  }

  lemma {:induction false} SumRemoveAt<T>(b: seq<T>, i: nat, f: T -> nat)
    requires i < |b|
    ensures Sum(b, f) == f(b[i]) + Sum(RemoveAt(b, i), f)
  {
    assert b == b[..i] + [b[i]] + b[i+1..];
    SumConcat(b[..i] + [b[i]], b[i+1..], f);
    SumConcat(b[..i], [b[i]], f);
    SumConcat(b[..i], b[i+1..], f);
    SumSingleton(b[i], f);
  }

  /** Reordering the elements reorders, but does not change, the flattening. */
  lemma {:induction false} FlattenPermutation<T, U>(a: seq<T>, b: seq<T>, f: T -> seq<U>)
    requires multiset(a) == multiset(b)
    ensures multiset(Flatten(a, f)) == multiset(Flatten(b, f))
  {
    if a == [] {
      assert |multiset(b)| == 0;
    } else {
      var x := a[0];
      assert x in multiset(b);
      var i :| 0 <= i < |b| && b[i] == x;
      var b' := RemoveAt(b, i);
      DropBoth(a, b, i);
      FlattenPermutation(a[1..], b', f);
      FlattenRemoveAt(b, i, f);
    }
  }

  lemma {:induction false} FlattenRemoveAt<T, U>(b: seq<T>, i: nat, f: T -> seq<U>)
    requires i < |b|
    ensures multiset(Flatten(b, f)) == multiset(f(b[i])) + multiset(Flatten(RemoveAt(b, i), f))
  {
    var front, back := Flatten(b[..i], f), Flatten(b[i+1..], f);
    assert b == b[..i] + [b[i]] + b[i+1..];
    FlattenConcat(b[..i] + [b[i]], b[i+1..], f);
    FlattenConcat(b[..i], [b[i]], f);
    FlattenConcat(b[..i], b[i+1..], f);
    assert Flatten([b[i]], f) == f(b[i]) by {
      assert [b[i]][1..] == [];
    }
    assert Flatten(b, f) == front + f(b[i]) + back;
    assert Flatten(RemoveAt(b, i), f) == front + back;
  }

  /** What `f` gives for an element is part of the flattening. */
  lemma {:induction false} FlattenMember<T, U>(s: seq<T>, x: T, f: T -> seq<U>)
    requires x in s
    ensures forall u :: u in f(x) ==> u in Flatten(s, f)
  {
    assert Flatten(s, f) == f(s[0]) + Flatten(s[1..], f);
    if x != s[0] {
      FlattenMember(s[1..], x, f);
    }
  }

  /** Two sums agree when their summands agree on every element. */
  lemma {:induction false} SumCongruent<T>(s: seq<T>, f: T -> nat, g: T -> nat)
    requires forall x :: x in s ==> f(x) == g(x)
    ensures Sum(s, f) == Sum(s, g)
  {
    if s != [] {
      SumCongruent(s[1..], f, g);
    }
  }

  /** The parts of a sequence without repetitions have none and share nothing. */
  lemma DistinctSplit<T>(a: seq<T>, b: seq<T>)
    requires Distinct(a + b)
    ensures Distinct(a) && Distinct(b)
    ensures forall x :: x in a ==> x !in b
  {
    assert multiset(a + b) == multiset(a) + multiset(b);
    forall x | x in multiset(a)
      ensures multiset(a)[x] == 1
    {
      assert multiset(a + b)[x] == multiset(a)[x] + multiset(b)[x];
    }
    forall x | x in multiset(b)
      ensures multiset(b)[x] == 1
    {
      assert multiset(a + b)[x] == multiset(a)[x] + multiset(b)[x];
    }
    forall x | x in a
      ensures x !in b
    {
      assert multiset(a)[x] >= 1;
      assert multiset(a + b)[x] == multiset(a)[x] + multiset(b)[x];
    }
  }

  /** The first element of a distinct sequence does not recur. */
  lemma DistinctHead<T>(x: T, s: seq<T>)
    requires Distinct([x] + s)
    ensures x !in s
  {
    assert multiset([x] + s) == multiset{x} + multiset(s);
    assert x in multiset([x] + s);
  }

  /** Putting a new value in front keeps a sequence free of repetitions. */
  lemma DistinctCons<T>(z: T, rest: seq<T>)
    requires Distinct(rest) && z !in rest
    ensures Distinct([z] + rest)
  {
    var m := multiset([z] + rest);
    assert m == multiset{z} + multiset(rest);
    forall y | y in m
      ensures m[y] == 1
    {
      if y != z {
        assert y in multiset(rest);
      }
    }
  }

  /** Removing one occurrence of `k` from a sum of multisets where `h`
      lacks `k` removes it from the other part. */
  lemma MultisetRemoveBehind<T>(h: multiset<T>, a: multiset<T>, k: T)
    requires k !in h
    ensures (h + a) - multiset{k} == h + (a - multiset{k})
  {
    assert forall x :: ((h + a) - multiset{k})[x] == (h + (a - multiset{k}))[x];
  }
}
