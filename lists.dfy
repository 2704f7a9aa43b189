/** Sequence operations that stand for Python's list methods used by the registry. */
module Lists {

  /** No element occurs twice. */
  ghost predicate Distinct<T>(s: seq<T>) {
    forall i, j :: 0 <= i < j < |s| ==> s[i] != s[j]
  }

  /** The position of the first occurrence of `x` (Python's `list.index`). */
  function IndexOf<T(==)>(s: seq<T>, x: T): (i: nat)
    requires x in s
    ensures i < |s| && s[i] == x
    ensures forall j :: 0 <= j < i ==> s[j] != x
  {
    if s[0] == x then 0 else 1 + IndexOf(s[1..], x)
  }

  /** Python's `list.remove(x)` on a list that holds `x`: the first occurrence is deleted.
      On a list without `x` Python raises instead; callers check membership first, and the
      function leaves such a list as it is. */
  function RemoveFirst<T(==)>(s: seq<T>, x: T): (r: seq<T>)
    ensures x !in s ==> r == s
    ensures x in s ==> |r| == |s| - 1
  {
    if x in s then
      var i := IndexOf(s, x);
      s[..i] + s[i + 1..]
    else
      s
  }

  /** The elements before the first `x` keep their places; those after it move down by one. */
  lemma RemoveFirstShape<T>(s: seq<T>, x: T)
    requires x in s
    ensures var i, r := IndexOf(s, x), RemoveFirst(s, x);
            && r[..i] == s[..i]
            && forall j :: i <= j < |r| ==> r[j] == s[j + 1]
  {
  }

  /** Exactly one copy of `x` leaves the list, if there was one; nothing else changes. */
  lemma RemoveFirstMultiset<T>(s: seq<T>, x: T)
    ensures multiset(RemoveFirst(s, x)) == multiset(s) - multiset{x}
    ensures x in s ==> |RemoveFirst(s, x)| == |s| - 1
  {
    if x in s {
      var i := IndexOf(s, x);
      assert s == s[..i] + [s[i]] + s[i + 1..];
      assert multiset(s) == multiset(s[..i]) + multiset{x} + multiset(s[i + 1..]);
    } else {
      assert multiset(s)[x] == 0;
    }
  }

  /** Elements other than `x` are kept. */
  lemma RemoveFirstKeepsOthers<T>(s: seq<T>, x: T, y: T)
    requires y != x
    ensures y in RemoveFirst(s, x) <==> y in s
  {
  }

  /** On a list without repetitions, removal keeps it so and leaves no copy of `x`. */
  lemma RemoveFirstDistinct<T>(s: seq<T>, x: T)
    requires Distinct(s)
    ensures Distinct(RemoveFirst(s, x))
    ensures x !in RemoveFirst(s, x)
  {
  }

  lemma AppendAssoc<T>(a: seq<T>, b: seq<T>, c: seq<T>)
    ensures a + b + c == a + (b + c)
  {
  }

  /** `xs` removed one element at a time, first to last. */
  function RemoveEach<T(==)>(s: seq<T>, xs: seq<T>): (r: seq<T>)
    ensures |s| - |xs| <= |r| <= |s|
  {
    if xs == [] then s else RemoveFirst(RemoveEach(s, xs[..|xs| - 1]), xs[|xs| - 1])
  }

  /** Removing each of `xs` in turn takes away exactly the multiset of `xs`. */
  lemma {:induction false} RemoveEachMultiset<T>(s: seq<T>, xs: seq<T>)
    ensures multiset(RemoveEach(s, xs)) == multiset(s) - multiset(xs)
  {
    if xs != [] {
      var init, last := xs[..|xs| - 1], xs[|xs| - 1];
      assert xs == init + [last];
      RemoveEachMultiset(s, init);
      RemoveFirstMultiset(RemoveEach(s, init), last);
    }
  }
}
