/** Sequence helpers the generator relies on: duplicate-freedom, the
    order-preserving de-duplication `uniqify` of the repository's utilities,
    and flattening of per-equivalence results. */
module Collections {

  /** No element occurs twice in `s`. */
  predicate NoDup<T(==)>(s: seq<T>) {
    forall i, j :: 0 <= i < j < |s| ==> s[i] != s[j]
  }

  /** The elements of `s` as a set. */
  function Elems<T>(s: seq<T>): set<T> {
    set x | x in s
  }

  /** `s` lists every element of `xs` exactly once. */
  predicate Enumerates<T(==)>(s: seq<T>, xs: set<T>) {
    NoDup(s) && Elems(s) == xs
  }

  /** Appending one element not yet listed extends an enumeration. */
  lemma EnumeratesSnoc<T>(s: seq<T>, xs: set<T>, x: T)
    requires Enumerates(s, xs) && x !in xs
    ensures Enumerates(s + [x], xs + {x})
  {
    assert Elems(s + [x]) == xs + {x};
  }

  /** Appending to a sequence leaves its prefixes as they were. */
  lemma SnocPrefix<T>(s: seq<T>, x: T, j: int)
    requires 0 <= j <= |s|
    ensures (s + [x])[..j] == s[..j]
  {
  }

  /** Appending to a sequence leaves its elements as they were. */
  lemma SnocAt<T>(s: seq<T>, x: T, j: int)
    requires 0 <= j <= |s|
    ensures (s + [x])[j] == if j < |s| then s[j] else x
  {
  }

  /** A sequence without duplicates has as many elements as its length. */
  lemma {:induction false} NoDupCard<T>(s: seq<T>)
    requires NoDup(s)
    ensures |Elems(s)| == |s|
  {
    if s != [] {
      var init, x := s[..|s| - 1], s[|s| - 1];
      assert s == init + [x];
      assert Elems(s) == Elems(init) + {x};
      assert x !in Elems(init);
      NoDupCard(init);
    }
  }

  /** The only enumeration of a single element is that element alone. */
  lemma EnumeratesSingle<T>(s: seq<T>, x: T)
    requires Enumerates(s, {x})
    ensures s == [x]
  {
    NoDupCard(s);
    assert s[0] in Elems(s);
  }

  /** The only enumerations of two distinct elements are the two orders. */
  lemma EnumeratesPair<T>(s: seq<T>, x: T, y: T)
    requires x != y && Enumerates(s, {x, y})
    ensures s == [x, y] || s == [y, x]
  {
    NoDupCard(s);
    assert {x, y} == {x} + {y};
    assert s[0] in Elems(s) && s[1] in Elems(s);
  }

  /** Order-preserving de-duplication: keeps the first occurrence of every
      element.  The result has no duplicates and exactly the same elements. */
  function Uniqify<T(==,!new)>(s: seq<T>): (r: seq<T>)
    ensures NoDup(r)
    ensures forall x :: x in r <==> x in s
    ensures |r| <= |s|
  {
    if s == [] then []
    else
      var init := s[..|s| - 1];
      var r := Uniqify(init);
      assert s == init + [s[|s| - 1]];
      if s[|s| - 1] in r then r else r + [s[|s| - 1]]
  }

  /** A sequence that already has no duplicates is left as it is. */
  lemma {:induction false} UniqifyDistinct<T(!new)>(s: seq<T>)
    requires NoDup(s)
    ensures Uniqify(s) == s
  {
    if s != [] {
      var init := s[..|s| - 1];
      assert NoDup(init);
      UniqifyDistinct(init);
      assert s[|s| - 1] !in init;
      assert s == init + [s[|s| - 1]];
    }
  }

  /** The concatenation of a sequence of sequences. */
  function Flatten<T(!new)>(ss: seq<seq<T>>): (r: seq<T>)
    ensures forall x :: x in r <==> exists i :: 0 <= i < |ss| && x in ss[i]
  {
    if ss == [] then []
    else
      var r := Flatten(ss[..|ss| - 1]);
      assert forall i :: 0 <= i < |ss| - 1 ==> ss[..|ss| - 1][i] == ss[i];
      r + ss[|ss| - 1]
  }

  /** One plus the index of the last member of `ss` that holds `x`, or 0
      when none does. */
  function LastIn<T(==)>(ss: seq<seq<T>>, x: T): (r: nat)
    ensures r <= |ss|
  {
    if ss == [] then 0
    else if x in ss[|ss| - 1] then |ss|
    else LastIn(ss[..|ss| - 1], x)
  }

  lemma {:induction false} LastInSnoc<T>(ss: seq<seq<T>>, s: seq<T>, x: T)
    ensures LastIn(ss + [s], x) == if x in s then |ss| + 1 else LastIn(ss, x)
  {
    var ext := ss + [s];
    assert ext[..|ext| - 1] == ss;
    assert ext[|ext| - 1] == s;
  }

  /** LastIn is positive exactly when some member holds `x`; the member it
      names holds x, and no later one does. */
  lemma {:induction false} LastInMeaning<T>(ss: seq<seq<T>>, x: T)
    ensures 1 <= LastIn(ss, x) <==> exists i :: 0 <= i < |ss| && x in ss[i]
    ensures 1 <= LastIn(ss, x) ==> x in ss[LastIn(ss, x) - 1]
    ensures forall i :: LastIn(ss, x) <= i < |ss| ==> x !in ss[i]
  {
    if ss != [] {
      var init := ss[..|ss| - 1];
      LastInMeaning(init, x);
      assert forall i :: 0 <= i < |init| ==> init[i] == ss[i];
    }
  }

  /** LastIn is positive exactly when the concatenation holds `x`. */
  lemma LastInFlatten<T(!new)>(ss: seq<seq<T>>, x: T)
    ensures 1 <= LastIn(ss, x) <==> x in Flatten(ss)
  {
    LastInMeaning(ss, x);
  }

  /** Flattening a single sequence gives it back. */
  lemma FlattenSingle<T(!new)>(ss: seq<seq<T>>)
    requires |ss| == 1
    ensures Flatten(ss) == ss[0]
  {
    assert ss[..0] == [];
  }
}
