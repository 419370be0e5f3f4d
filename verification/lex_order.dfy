/** The order `Array.prototype.sort()` uses when no comparator is given:
    strings compared character by character, a proper prefix before any of
    its extensions. Insertion sort is the reference sorting function; since
    the order is total and antisymmetric, any sorted permutation of a list is
    this one, whatever algorithm the JavaScript engine runs. */
module LexOrder {

  /** `a` sorts no later than `b`. */
  predicate LexLe(a: string, b: string)
    decreases |a|
  {
    if |a| == 0 then true
    else if |b| == 0 then false
    else if a[0] != b[0] then a[0] < b[0]
    else LexLe(a[1..], b[1..])
  }

  lemma {:induction false} LexLeReflexive(a: string)
    ensures LexLe(a, a)
    decreases |a|
  {
    if |a| > 0 {
      LexLeReflexive(a[1..]);
    }
  }

  lemma {:induction false} LexLeTotal(a: string, b: string)
    ensures LexLe(a, b) || LexLe(b, a)
    decreases |a|
  {
    if |a| > 0 && |b| > 0 && a[0] == b[0] {
      LexLeTotal(a[1..], b[1..]);
    }
  }

  lemma {:induction false} LexLeAntisymmetric(a: string, b: string)
    requires LexLe(a, b) && LexLe(b, a)
    ensures a == b
    decreases |a|
  {
    if |a| > 0 {
      LexLeAntisymmetric(a[1..], b[1..]);
      assert a == [a[0]] + a[1..];
      assert b == [b[0]] + b[1..];
    }
  }

  lemma {:induction false} LexLeTransitive(a: string, b: string, c: string)
    requires LexLe(a, b) && LexLe(b, c)
    ensures LexLe(a, c)
    decreases |a|
  {
    if |a| > 0 && a[0] == b[0] && b[0] == c[0] {
      LexLeTransitive(a[1..], b[1..], c[1..]);
    }
  }

  predicate Sorted(xs: seq<string>) {
    forall i, j :: 0 <= i < j < |xs| ==> LexLe(xs[i], xs[j])
  }

  /** Inserts `x` before the first element it sorts no later than. */
  function Insert(x: string, xs: seq<string>): (r: seq<string>)
    requires Sorted(xs)
    ensures Sorted(r)
    ensures multiset(r) == multiset(xs) + multiset{x}
    decreases |xs|
  {
    if |xs| == 0 then [x]
    else if LexLe(x, xs[0]) then
      InsertFrontSorted(x, xs);
      [x] + xs
    else
      LexLeTotal(x, xs[0]);
      var rest := Insert(x, xs[1..]);
      assert xs == [xs[0]] + xs[1..];
      HeadBelowRest(xs[0], xs[1..], x, rest);
      [xs[0]] + rest
  }

  lemma InsertFrontSorted(x: string, xs: seq<string>)
    requires Sorted(xs) && |xs| > 0 && LexLe(x, xs[0])
    ensures Sorted([x] + xs)
  {
    forall j | 0 < j < |xs| + 1
      ensures LexLe(([x] + xs)[0], ([x] + xs)[j])
    {
      if j > 1 {
        LexLeTransitive(x, xs[0], xs[j - 1]);
      }
    }
  }

  /** A head below every element of a sorted list keeps it sorted. */
  lemma ConsSorted(h: string, rest: seq<string>)
    requires Sorted(rest)
    requires forall j :: 0 <= j < |rest| ==> LexLe(h, rest[j])
    ensures Sorted([h] + rest)
  {
    var xs := [h] + rest;
    forall i, j | 0 <= i < j < |xs|
      ensures LexLe(xs[i], xs[j])
    {
      if i > 0 {
        assert xs[i] == rest[i - 1] && xs[j] == rest[j - 1];
      } else {
        assert xs[j] == rest[j - 1];
      }
    }
  }

  /** The head of a sorted list sorts no later than any element of its tail. */
  lemma HeadBelowTail(h: string, tail: seq<string>, y: string)
    requires Sorted([h] + tail) && y in multiset(tail)
    ensures LexLe(h, y)
  {
    var k :| 0 <= k < |tail| && tail[k] == y;
    var ht := [h] + tail;
    assert ht[0] == h && ht[k + 1] == y;
  }

  lemma HeadBelowRest(h: string, tail: seq<string>, x: string, rest: seq<string>)
    requires Sorted([h] + tail) && Sorted(rest) && LexLe(h, x)
    requires multiset(rest) == multiset(tail) + multiset{x}
    ensures Sorted([h] + rest)
  {
    forall j | 0 <= j < |rest|
      ensures LexLe(h, rest[j])
    {
      assert rest[j] in multiset(rest);
      if rest[j] != x {
        HeadBelowTail(h, tail, rest[j]);
      }
    }
    ConsSorted(h, rest);
  }

  /** Insertion sort: a sorted permutation of `xs`. */
  function Sort(xs: seq<string>): (r: seq<string>)
    ensures Sorted(r)
    ensures multiset(r) == multiset(xs)
    decreases |xs|
  {
    if |xs| == 0 then []
    else
      assert xs == [xs[0]] + xs[1..];
      Insert(xs[0], Sort(xs[1..]))
  }

  /** A sorted list's first element sorts no later than anything in it. */
  lemma SortedHeadIsLeast(xs: seq<string>, y: string)
    requires Sorted(xs) && |xs| > 0 && y in multiset(xs)
    ensures LexLe(xs[0], y)
  {
    var k :| 0 <= k < |xs| && xs[k] == y;
    if k == 0 {
      LexLeReflexive(y);
    }
  }

  lemma SortedTail(a: seq<string>)
    requires Sorted(a) && |a| > 0
    ensures Sorted(a[1..])
  {
    forall i, j | 0 <= i < j < |a| - 1
      ensures LexLe(a[1..][i], a[1..][j])
    {
      assert a[1..][i] == a[i + 1] && a[1..][j] == a[j + 1];
    }
  }

  /** Two sorted permutations of a nonempty list start alike. */
  lemma SortedHeadsAgree(a: seq<string>, b: seq<string>)
    requires Sorted(a) && Sorted(b) && |a| > 0
    requires multiset(a) == multiset(b)
    ensures |b| > 0 && a[0] == b[0]
  {
    assert |b| == |multiset(b)| > 0;
    assert a[0] in multiset(b) && b[0] in multiset(a) by {
      assert a == [a[0]] + a[1..];
      assert b == [b[0]] + b[1..];
    }
    SortedHeadIsLeast(a, b[0]);
    SortedHeadIsLeast(b, a[0]);
    LexLeAntisymmetric(a[0], b[0]);
  }

  lemma TailsAgree(a: seq<string>, b: seq<string>)
    requires |a| > 0 && |b| > 0 && a[0] == b[0]
    requires multiset(a) == multiset(b)
    ensures multiset(a[1..]) == multiset(b[1..])
  {
    assert a == [a[0]] + a[1..];
    assert b == [b[0]] + b[1..];
    assert multiset(a) == multiset{a[0]} + multiset(a[1..]);
    assert multiset(b) == multiset{b[0]} + multiset(b[1..]);
    assert multiset(a[1..]) == multiset(a) - multiset{a[0]};
    assert multiset(b[1..]) == multiset(b) - multiset{b[0]};
  }

  /** Two sorted permutations of the same list are equal: the result of
      sorting does not depend on the sorting algorithm. */
  lemma {:induction false} SortedPermutationUnique(a: seq<string>, b: seq<string>)
    requires Sorted(a) && Sorted(b)
    requires multiset(a) == multiset(b)
    ensures a == b
    decreases |a|
  {
    if |a| == 0 {
      assert |b| == |multiset(b)| == 0;
    } else {
      SortedHeadsAgree(a, b);
      TailsAgree(a, b);
      SortedTail(a);
      SortedTail(b);
      SortedPermutationUnique(a[1..], b[1..]);
      assert a == [a[0]] + a[1..];
      assert b == [b[0]] + b[1..];
    }
  }

  /** Sorting an already-sorted list changes nothing. */
  lemma SortIdempotent(xs: seq<string>)
    requires Sorted(xs)
    ensures Sort(xs) == xs
  {
    SortedPermutationUnique(Sort(xs), xs);
  }
}
