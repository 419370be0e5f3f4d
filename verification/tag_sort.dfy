/** Ordering of the tag list shown by the tag picker: tags are grouped under
    the part before their first `/`, the group names are sorted, and each
    group name is followed by its own tags, sorted. */
module TagSort {
  import opened Basics
  import opened LexOrder

  /** `tag.split('/')` has one part: the tag has no `/`. */
  predicate IsRoot(tag: string) {
    '/' !in tag
  }

  /** `tag.split('/')[0]`: the text before the first `/`. */
  function ParentOf(tag: string): (p: string)
    requires !IsRoot(tag)
    ensures IsRoot(p)
    ensures |p| < |tag| && tag[..|p|] == p && tag[|p|] == '/'
  {
    var k := IndexOf(tag, '/');
    assert forall i :: 0 <= i < k ==> tag[..k][i] != '/';
    tag[..k]
  }

  /** The group a tag belongs to: itself for a root, its parent otherwise. */
  function GroupName(tag: string): (g: string)
    ensures IsRoot(g)
  {
    if IsRoot(tag) then tag else ParentOf(tag)
  }

  /** The two collections the first loop builds: the root list, in the
      order roots were pushed, and the tag hierarchy from a root to the
      subtags pushed under it. */
  datatype Grouping = Grouping(roots: seq<string>, groups: map<string, seq<string>>)

  /** One iteration of the first loop. A root tag is pushed without
      checking for a duplicate; a subtag pushes its parent only when the
      parent is not yet in the root list. */
  function AddTag(g: Grouping, tag: string): Grouping {
    if IsRoot(tag) then
      Grouping(g.roots + [tag], if tag in g.groups then g.groups else g.groups[tag := []])
    else
      var parent := ParentOf(tag);
      var roots := if parent in g.roots then g.roots else g.roots + [parent];
      var groups := if parent in g.groups then g.groups else g.groups[parent := []];
      Grouping(roots, groups[parent := groups[parent] + [tag]])
  }

  /** The subtags of `tags` whose parent is `r`, in input order. */
  function Children(tags: seq<string>, r: string): seq<string>
    decreases |tags|
  {
    if |tags| == 0 then []
    else
      var last := tags[|tags| - 1];
      Children(tags[..|tags| - 1], r) + (if !IsRoot(last) && ParentOf(last) == r then [last] else [])
  }

  /** The parents named by the subtags of `tags`. */
  ghost function Parents(tags: seq<string>): set<string> {
    set t | t in tags && !IsRoot(t) :: ParentOf(t)
  }

  /** What the first loop keeps true of the tags it has seen: the hierarchy
      is keyed by exactly the roots listed, every listed root is a root
      that was seen or the parent of a subtag that was seen, every seen
      tag's group is listed, and each group holds exactly its subtags, in
      input order. */
  ghost predicate Grouped(g: Grouping, tags: seq<string>) {
    && (forall r :: r in g.groups <==> r in g.roots)
    && (forall r :: r in g.roots ==> IsRoot(r))
    && (forall r :: r in g.groups ==> g.groups[r] == Children(tags, r))
    && (forall t :: t in tags ==> GroupName(t) in g.roots)
    && (forall r :: r in g.roots ==> r in tags || r in Parents(tags))
  }

  lemma ParentsSnoc(tags: seq<string>, t: string)
    ensures Parents(tags + [t]) == Parents(tags) + (if IsRoot(t) then {} else {ParentOf(t)})
  {
    assert forall x :: x in tags + [t] <==> x in tags || x == t;
  }

  lemma ChildrenSnoc(tags: seq<string>, t: string, r: string)
    ensures Children(tags + [t], r)
         == Children(tags, r) + (if !IsRoot(t) && ParentOf(t) == r then [t] else [])
  {
    assert (tags + [t])[..|tags|] == tags;
  }

  /** One loop iteration keeps the invariant. */
  lemma AddTagKeepsGrouped(g: Grouping, tags: seq<string>, t: string)
    requires Grouped(g, tags)
    ensures Grouped(AddTag(g, t), tags + [t])
  {
    AddTagKeepsKeys(g, tags, t);
    AddTagKeepsChildren(g, tags, t);
    AddTagKeepsOrigins(g, tags, t);
  }

  lemma AddTagKeepsKeys(g: Grouping, tags: seq<string>, t: string)
    requires forall r :: r in g.groups <==> r in g.roots
    requires forall r :: r in g.roots ==> IsRoot(r)
    ensures forall r :: r in AddTag(g, t).groups <==> r in AddTag(g, t).roots
    ensures forall r :: r in AddTag(g, t).roots ==> IsRoot(r)
  {
  }

  lemma AddTagKeepsChildren(g: Grouping, tags: seq<string>, t: string)
    requires forall r :: r in g.groups ==> g.groups[r] == Children(tags, r)
    requires forall x :: x in tags ==> GroupName(x) in g.roots
    requires forall r :: r in g.groups <==> r in g.roots
    ensures forall r :: r in AddTag(g, t).groups ==> AddTag(g, t).groups[r] == Children(tags + [t], r)
  {
    var g' := AddTag(g, t);
    forall r | r in g'.groups
      ensures g'.groups[r] == Children(tags + [t], r)
    {
      ChildrenSnoc(tags, t, r);
      if r !in g.groups {
        assert r == GroupName(t);
        assert Children(tags, r) == [] by {
          if Children(tags, r) != [] {
            ChildrenNonEmpty(tags, r);
          }
        }
      }
    }
  }

  lemma AddTagKeepsOrigins(g: Grouping, tags: seq<string>, t: string)
    requires forall x :: x in tags ==> GroupName(x) in g.roots
    requires forall r :: r in g.roots ==> r in tags || r in Parents(tags)
    ensures forall x :: x in tags + [t] ==> GroupName(x) in AddTag(g, t).roots
    ensures forall r :: r in AddTag(g, t).roots ==> r in tags + [t] || r in Parents(tags + [t])
  {
    ParentsSnoc(tags, t);
    assert forall x :: x in tags + [t] <==> x in tags || x == t;
  }

  /** A nonempty group names a subtag of the group's root. */
  lemma {:induction false} ChildrenNonEmpty(tags: seq<string>, r: string)
    requires Children(tags, r) != []
    ensures exists t :: t in tags && !IsRoot(t) && ParentOf(t) == r
    decreases |tags|
  {
    var prefix := tags[..|tags| - 1];
    var last := tags[|tags| - 1];
    if !IsRoot(last) && ParentOf(last) == r {
      assert last in tags;
    } else {
      ChildrenNonEmpty(prefix, r);
      assert forall x :: x in prefix ==> x in tags;
    }
  }

  /** The first loop over all of `tags`. Every tag's group is in the root
      list, the root list holds nothing else, and the hierarchy maps each
      root to exactly its subtags, in input order. The ensures are the five
      conjuncts of `Grouped(g, tags)`, spelled out so that callers see each
      fact directly instead of unfolding the predicate, which keeps the
      proofs about concrete groupings below small. */
  function Group(tags: seq<string>): (g: Grouping)
    ensures forall r :: r in g.groups <==> r in g.roots
    ensures forall r :: r in g.roots ==> IsRoot(r)
    ensures forall r :: r in g.groups ==> g.groups[r] == Children(tags, r)
    ensures forall t :: t in tags ==> GroupName(t) in g.roots
    ensures forall r :: r in g.roots ==> r in tags || r in Parents(tags)
    decreases |tags|
  {
    if |tags| == 0 then Grouping([], map[])
    else
      var prefix := tags[..|tags| - 1];
      var last := tags[|tags| - 1];
      assert tags == prefix + [last];
      var g := AddTag(Group(prefix), last);
      AddTagKeepsGrouped(Group(prefix), prefix, last);
      g
  }

  /** The second loop: each root in turn, followed by its subtags sorted. */
  function Emit(rs: seq<string>, groups: map<string, seq<string>>): seq<string>
    requires forall r :: r in rs ==> r in groups
    decreases |rs|
  {
    if |rs| == 0 then []
    else [rs[0]] + Sort(groups[rs[0]]) + Emit(rs[1..], groups)
  }

  /** `sortTagsWithSubtags`: group, sort the roots, then emit. */
  function SortTagsWithSubtags(tags: seq<string>): seq<string> {
    var g := Group(tags);
    var roots := Sort(g.roots);
    assert forall r :: r in roots ==> r in g.groups by {
      forall r | r in roots
        ensures r in g.groups
      {
        assert r in multiset(roots);
      }
    }
    Emit(roots, g.groups)
  }

  /* ---- How often each root is listed ---- */

  /** Some subtag of `r` comes before every explicit `r` in `tags`. */
  ghost predicate ChildBeforeRoot(tags: seq<string>, r: string) {
    exists i :: 0 <= i < |tags| && !IsRoot(tags[i]) && ParentOf(tags[i]) == r && r !in tags[..i]
  }

  /** How many times the root list names `r`: once per explicit occurrence,
      plus once more when a subtag of `r` was seen before `r` itself. */
  ghost function RootMultiplicity(tags: seq<string>, r: string): nat {
    (if IsRoot(r) then multiset(tags)[r] else 0) + (if ChildBeforeRoot(tags, r) then 1 else 0)
  }

  lemma ChildBeforeRootSnoc(tags: seq<string>, t: string, r: string)
    ensures ChildBeforeRoot(tags + [t], r)
        <==> ChildBeforeRoot(tags, r) || (!IsRoot(t) && ParentOf(t) == r && r !in tags)
  {
    var tags' := tags + [t];
    assert tags'[..|tags|] == tags;
    if ChildBeforeRoot(tags', r) {
      var i :| 0 <= i < |tags'| && !IsRoot(tags'[i]) && ParentOf(tags'[i]) == r && r !in tags'[..i];
      if i < |tags| {
        assert tags'[..i] == tags[..i];
      }
    }
    if ChildBeforeRoot(tags, r) {
      var i :| 0 <= i < |tags| && !IsRoot(tags[i]) && ParentOf(tags[i]) == r && r !in tags[..i];
      assert tags'[..i] == tags[..i];
      assert tags'[i] == tags[i];
    }
  }

  /** A root tag adds one listing of itself and changes no other count. */
  lemma RootCountRootStep(g: Grouping, prefix: seq<string>, last: string, r: string)
    requires IsRoot(last)
    requires multiset(g.roots)[r] == RootMultiplicity(prefix, r)
    ensures multiset(AddTag(g, last).roots)[r] == RootMultiplicity(prefix + [last], r)
  {
    ChildBeforeRootSnoc(prefix, last, r);
    assert AddTag(g, last).roots == g.roots + [last];
    assert multiset(g.roots + [last])[r] == multiset(g.roots)[r] + multiset([last])[r];
    assert multiset(prefix + [last])[r] == multiset(prefix)[r] + multiset([last])[r];
    if !IsRoot(r) {
      assert last != r;
    }
  }

  /** A subtag lists its parent once, and only when the parent is not yet
      listed, which is when the parent has not been seen in any form. */
  lemma RootCountSubtagStep(g: Grouping, prefix: seq<string>, last: string, r: string)
    requires !IsRoot(last)
    requires multiset(g.roots)[r] == RootMultiplicity(prefix, r)
    ensures multiset(AddTag(g, last).roots)[r] == RootMultiplicity(prefix + [last], r)
  {
    ChildBeforeRootSnoc(prefix, last, r);
    var p := ParentOf(last);
    var roots' := AddTag(g, last).roots;
    assert multiset(prefix + [last])[r] == multiset(prefix)[r] + multiset([last])[r];
    assert IsRoot(r) ==> multiset([last])[r] == 0;
    assert roots' == if p in g.roots then g.roots else g.roots + [p];
    assert multiset(g.roots + [p])[r] == multiset(g.roots)[r] + multiset([p])[r];
    if r == p {
      assert p in g.roots <==> multiset(g.roots)[p] > 0;
      assert p in prefix <==> multiset(prefix)[p] > 0;
    }
  }

  /** The root list is not deduplicated: it names `r` exactly
      `RootMultiplicity(tags, r)` times. */
  lemma {:induction false} RootCount(tags: seq<string>, r: string)
    ensures multiset(Group(tags).roots)[r] == RootMultiplicity(tags, r)
    decreases |tags|
  {
    if |tags| == 0 {
      assert !ChildBeforeRoot(tags, r);
    } else {
      var prefix := tags[..|tags| - 1];
      var last := tags[|tags| - 1];
      assert tags == prefix + [last];
      RootCount(prefix, r);
      assert Group(tags) == AddTag(Group(prefix), last);
      if IsRoot(last) {
        RootCountRootStep(Group(prefix), prefix, last, r);
      } else {
        RootCountSubtagStep(Group(prefix), prefix, last, r);
      }
    }
  }

  /* ---- How often each tag is emitted ---- */

  lemma {:induction false} ChildrenCount(tags: seq<string>, t: string)
    requires !IsRoot(t)
    ensures multiset(Children(tags, ParentOf(t)))[t] == multiset(tags)[t]
    decreases |tags|
  {
    if |tags| > 0 {
      var prefix := tags[..|tags| - 1];
      assert tags == prefix + [tags[|tags| - 1]];
      ChildrenCount(prefix, t);
    }
  }

  /** Each group of `groups` holds only subtags of its own root. */
  predicate ChildMap(groups: map<string, seq<string>>) {
    forall r :: r in groups ==> forall x :: x in groups[r] ==> !IsRoot(x) && ParentOf(x) == r
  }

  /** Counting over the first emitted group and the rest. */
  lemma EmitHead(rs: seq<string>, groups: map<string, seq<string>>, t: string, u: string)
    requires |rs| > 0
    requires forall r :: r in rs ==> r in groups
    ensures multiset(Emit(rs, groups))[t] ==
      multiset([rs[0]])[t] + multiset(groups[rs[0]])[t] + multiset(Emit(rs[1..], groups))[t]
    ensures multiset(rs)[u] == multiset([rs[0]])[u] + multiset(rs[1..])[u]
  {
    assert rs == [rs[0]] + rs[1..];
    var block := Sort(groups[rs[0]]);
    assert Emit(rs, groups) == [rs[0]] + block + Emit(rs[1..], groups);
    assert multiset(block)[t] == multiset(groups[rs[0]])[t];
  }

  /** A group never holds a root, nor a subtag of another root. */
  lemma NotInGroup(groups: map<string, seq<string>>, r: string, t: string)
    requires ChildMap(groups) && r in groups
    requires IsRoot(t) || ParentOf(t) != r
    ensures multiset(groups[r])[t] == 0
  {
    assert t !in groups[r];
  }

  lemma {:induction false} EmitCountRoot(rs: seq<string>, groups: map<string, seq<string>>, t: string)
    requires forall r :: r in rs ==> r in groups && IsRoot(r)
    requires ChildMap(groups) && IsRoot(t)
    ensures multiset(Emit(rs, groups))[t] == multiset(rs)[t]
    decreases |rs|
  {
    if |rs| > 0 {
      assert forall r :: r in rs[1..] ==> r in rs;
      EmitCountRoot(rs[1..], groups, t);
      EmitHead(rs, groups, t, t);
      NotInGroup(groups, rs[0], t);
      var e := multiset(Emit(rs[1..], groups))[t];
      assert multiset(Emit(rs, groups))[t] == multiset([rs[0]])[t] + e;
    }
  }

  /** `c` copies of `k`, summed; the counting proofs use it in place of a
      product so that each step stays linear. */
  function Times(c: nat, k: nat): nat {
    if c == 0 then 0 else k + Times(c - 1, k)
  }

  lemma {:induction false} TimesIsProduct(c: nat, k: nat)
    ensures Times(c, k) == c * k
  {
    if c > 0 {
      TimesIsProduct(c - 1, k);
      assert c * k == (c - 1) * k + k;
    }
  }

  /** The step of `EmitCountChild` when the first root is the parent. */
  lemma ChildCountAtParent(rs: seq<string>, groups: map<string, seq<string>>, t: string)
    requires |rs| > 0 && forall r :: r in rs ==> r in groups
    requires rs[0] != t
    requires multiset(Emit(rs[1..], groups))[t] == Times(multiset(rs[1..])[rs[0]], multiset(groups[rs[0]])[t])
    ensures multiset(Emit(rs, groups))[t] == Times(multiset(rs)[rs[0]], multiset(groups[rs[0]])[t])
  {
    var r := rs[0];
    EmitHead(rs, groups, t, r);
    var c := multiset(rs[1..])[r];
    var k := multiset(groups[r])[t];
    var e := multiset(Emit(rs[1..], groups))[t];
    assert multiset([r])[t] == 0 && multiset([r])[r] == 1;
    TimesSucc(c, k, multiset(rs)[r], multiset(Emit(rs, groups))[t], e);
  }

  lemma TimesSucc(c: nat, k: nat, c': nat, total: nat, e: nat)
    requires c' == c + 1 && e == Times(c, k) && total == k + e
    ensures total == Times(c', k)
  {
  }

  /** The step of `EmitCountChild` when the first root is another one. */
  lemma ChildCountElsewhere(rs: seq<string>, groups: map<string, seq<string>>, t: string, p: string)
    requires |rs| > 0 && forall r :: r in rs ==> r in groups
    requires rs[0] != t && rs[0] != p && t !in groups[rs[0]]
    ensures multiset(Emit(rs, groups))[t] == multiset(Emit(rs[1..], groups))[t]
    ensures multiset(rs)[p] == multiset(rs[1..])[p]
  {
    EmitHead(rs, groups, t, p);
    assert multiset([rs[0]])[t] == 0;
  }

  lemma {:induction false} EmitCountChildTimes(rs: seq<string>, groups: map<string, seq<string>>, t: string)
    requires forall r :: r in rs ==> r in groups && IsRoot(r)
    requires ChildMap(groups) && !IsRoot(t) && ParentOf(t) in groups
    ensures multiset(Emit(rs, groups))[t] == Times(multiset(rs)[ParentOf(t)], multiset(groups[ParentOf(t)])[t])
    decreases |rs|
  {
    if |rs| > 0 {
      assert forall r :: r in rs[1..] ==> r in rs;
      EmitCountChildTimes(rs[1..], groups, t);
      assert IsRoot(rs[0]);
      if rs[0] == ParentOf(t) {
        ChildCountAtParent(rs, groups, t);
      } else {
        NotInGroup(groups, rs[0], t);
        ChildCountElsewhere(rs, groups, t, ParentOf(t));
      }
    }
  }

  lemma {:induction false} EmitCountOrphan(rs: seq<string>, groups: map<string, seq<string>>, t: string)
    requires forall r :: r in rs ==> r in groups && IsRoot(r)
    requires ChildMap(groups) && !IsRoot(t) && ParentOf(t) !in groups
    ensures multiset(Emit(rs, groups))[t] == 0
    decreases |rs|
  {
    if |rs| > 0 {
      assert forall r :: r in rs[1..] ==> r in rs;
      EmitCountOrphan(rs[1..], groups, t);
      EmitHead(rs, groups, t, t);
      NotInGroup(groups, rs[0], t);
      assert multiset([rs[0]])[t] == 0;
    }
  }

  /** Every root is emitted once per listing, every subtag once per
      listing of its root and occurrence in its group. */
  lemma EmitCount(rs: seq<string>, groups: map<string, seq<string>>, t: string)
    requires forall r :: r in rs ==> r in groups && IsRoot(r)
    requires ChildMap(groups)
    ensures IsRoot(t) ==> multiset(Emit(rs, groups))[t] == multiset(rs)[t]
    ensures !IsRoot(t) && ParentOf(t) in groups ==>
      multiset(Emit(rs, groups))[t] == multiset(rs)[ParentOf(t)] * multiset(groups[ParentOf(t)])[t]
    ensures !IsRoot(t) && ParentOf(t) !in groups ==> multiset(Emit(rs, groups))[t] == 0
  {
    if IsRoot(t) {
      EmitCountRoot(rs, groups, t);
    } else if ParentOf(t) in groups {
      EmitCountChildTimes(rs, groups, t);
      TimesIsProduct(multiset(rs)[ParentOf(t)], multiset(groups[ParentOf(t)])[t]);
    } else {
      EmitCountOrphan(rs, groups, t);
    }
  }

  /** The sorted root list and the hierarchy meet what emitting needs. */
  lemma EmitReady(tags: seq<string>)
    ensures forall r :: r in Sort(Group(tags).roots) ==> r in Group(tags).groups && IsRoot(r)
    ensures ChildMap(Group(tags).groups)
  {
    var g := Group(tags);
    var roots := Sort(g.roots);
    forall r | r in roots
      ensures r in g.roots
    {
      assert r in multiset(roots);
    }
    forall r | r in g.groups
      ensures forall x :: x in g.groups[r] ==> !IsRoot(x) && ParentOf(x) == r
    {
      forall x | x in g.groups[r]
        ensures !IsRoot(x) && ParentOf(x) == r
      {
        ChildrenMembers(tags, r, x);
      }
    }
  }

  /** The output lists each root as often as the root list names it, and
      each subtag as often as it occurs in the input times the number of
      times its parent is listed. */
  lemma OutputCount(tags: seq<string>, t: string)
    ensures multiset(SortTagsWithSubtags(tags))[t]
         == if IsRoot(t) then RootMultiplicity(tags, t)
            else RootMultiplicity(tags, ParentOf(t)) * multiset(tags)[t]
  {
    var g := Group(tags);
    var roots := Sort(g.roots);
    EmitReady(tags);
    EmitCount(roots, g.groups, t);
    if IsRoot(t) {
      RootCount(tags, t);
    } else {
      RootCount(tags, ParentOf(t));
      ChildrenCount(tags, t);
      if ParentOf(t) !in g.groups {
        assert multiset(g.roots)[ParentOf(t)] == 0;
      }
    }
  }

  lemma {:induction false} ChildrenMembers(tags: seq<string>, r: string, x: string)
    requires x in Children(tags, r)
    ensures x in tags && !IsRoot(x) && ParentOf(x) == r
    decreases |tags|
  {
    var prefix := tags[..|tags| - 1];
    var last := tags[|tags| - 1];
    assert tags == prefix + [last];
    if x !in Children(prefix, r) {
      assert x == last;
    } else {
      ChildrenMembers(prefix, r, x);
    }
  }

  /** Every input tag's group is listed at least once. */
  lemma GroupNameListed(tags: seq<string>, t: string)
    requires t in tags
    ensures RootMultiplicity(tags, GroupName(t)) >= 1
  {
    var name := GroupName(t);
    assert name in Group(tags).roots;
    assert multiset(Group(tags).roots)[name] >= 1;
    RootCount(tags, name);
  }

  lemma ProductPositive(m: nat, n: nat)
    requires m >= 1 && n >= 1
    ensures m * n >= 1
  {
  }

  /** Nothing in the input is lost. */
  lemma OutputCoversInput(tags: seq<string>, t: string)
    requires t in tags
    ensures t in SortTagsWithSubtags(tags)
  {
    var out := SortTagsWithSubtags(tags);
    if IsRoot(t) {
      RootCovered(tags, t);
    } else {
      SubtagCovered(tags, t);
    }
    assert multiset(out)[t] >= 1;
  }

  lemma RootCovered(tags: seq<string>, t: string)
    requires t in tags && IsRoot(t)
    ensures multiset(SortTagsWithSubtags(tags))[t] >= 1
  {
    OutputCount(tags, t);
    GroupNameListed(tags, t);
  }

  lemma SubtagCovered(tags: seq<string>, t: string)
    requires t in tags && !IsRoot(t)
    ensures multiset(SortTagsWithSubtags(tags))[t] >= 1
  {
    OutputCount(tags, t);
    GroupNameListed(tags, t);
    var m := RootMultiplicity(tags, ParentOf(t));
    var n := multiset(tags)[t];
    ProductPositive(m, n);
  }

  /** Nothing is invented: every output tag is an input tag or the parent
      of one. */
  lemma OutputFromInput(tags: seq<string>, t: string)
    requires t in SortTagsWithSubtags(tags)
    ensures t in tags || t in Parents(tags)
  {
    OutputCount(tags, t);
    assert multiset(SortTagsWithSubtags(tags))[t] > 0;
    if IsRoot(t) {
      RootCount(tags, t);
      assert t in Group(tags).roots;
    } else {
      assert multiset(tags)[t] > 0;
    }
  }

  /* ---- Order of the output ---- */

  /** The roots in `xs`, in order. */
  function RootsOf(xs: seq<string>): (r: seq<string>)
    ensures forall x :: x in r ==> x in xs && IsRoot(x)
    decreases |xs|
  {
    if |xs| == 0 then []
    else (if IsRoot(xs[0]) then [xs[0]] else []) + RootsOf(xs[1..])
  }

  lemma {:induction false} RootsOfAppend(a: seq<string>, b: seq<string>)
    ensures RootsOf(a + b) == RootsOf(a) + RootsOf(b)
    decreases |a|
  {
    if |a| > 0 {
      assert (a + b)[1..] == a[1..] + b;
      RootsOfAppend(a[1..], b);
    } else {
      assert a + b == b;
    }
  }

  lemma {:induction false} RootsOfNone(xs: seq<string>)
    requires forall x :: x in xs ==> !IsRoot(x)
    ensures RootsOf(xs) == []
    decreases |xs|
  {
    if |xs| > 0 {
      assert forall x :: x in xs[1..] ==> x in xs;
      RootsOfNone(xs[1..]);
    }
  }

  /** Every subtag directly follows its parent or a sibling that does not
      sort after it, and the list starts with a root. */
  predicate Layout(xs: seq<string>) {
    && (|xs| > 0 ==> IsRoot(xs[0]))
    && forall k :: 1 <= k < |xs| && !IsRoot(xs[k]) ==>
         || xs[k - 1] == ParentOf(xs[k])
         || (!IsRoot(xs[k - 1]) && ParentOf(xs[k - 1]) == ParentOf(xs[k]) && LexLe(xs[k - 1], xs[k]))
  }

  lemma BlockLayout(r: string, block: seq<string>)
    requires IsRoot(r) && Sorted(block)
    requires forall x :: x in block ==> !IsRoot(x) && ParentOf(x) == r
    ensures Layout([r] + block)
  {
    var xs := [r] + block;
    forall k | 1 <= k < |xs| && !IsRoot(xs[k])
      ensures || xs[k - 1] == ParentOf(xs[k])
              || (!IsRoot(xs[k - 1]) && ParentOf(xs[k - 1]) == ParentOf(xs[k]) && LexLe(xs[k - 1], xs[k]))
    {
      assert xs[k] == block[k - 1];
      if k >= 2 {
        assert xs[k - 1] == block[k - 2];
      }
    }
  }

  lemma LayoutAppend(a: seq<string>, b: seq<string>)
    requires Layout(a) && Layout(b)
    ensures Layout(a + b)
  {
    var xs := a + b;
    forall k | 1 <= k < |xs| && !IsRoot(xs[k])
      ensures || xs[k - 1] == ParentOf(xs[k])
              || (!IsRoot(xs[k - 1]) && ParentOf(xs[k - 1]) == ParentOf(xs[k]) && LexLe(xs[k - 1], xs[k]))
    {
      if k < |a| {
        assert xs[k] == a[k] && xs[k - 1] == a[k - 1];
      } else if k > |a| {
        assert xs[k] == b[k - |a|] && xs[k - 1] == b[k - 1 - |a|];
      }
    }
  }

  /** One emitted group: sorted, and only subtags of its root. */
  lemma SortedBlock(groups: map<string, seq<string>>, r: string)
    requires r in groups && ChildMap(groups)
    ensures Sorted(Sort(groups[r]))
    ensures forall x :: x in Sort(groups[r]) ==> !IsRoot(x) && ParentOf(x) == r
  {
    var block := Sort(groups[r]);
    forall x | x in block
      ensures x in groups[r]
    {
      assert x in multiset(block);
    }
  }

  /** One emitted group contributes exactly its root to the roots. */
  lemma RootsStep(r: string, block: seq<string>, rest: seq<string>)
    requires IsRoot(r)
    requires forall x :: x in block ==> !IsRoot(x)
    ensures RootsOf(([r] + block) + rest) == [r] + RootsOf(rest)
  {
    RootsOfAppend([r] + block, rest);
    RootsOfAppend([r], block);
    RootsOfNone(block);
    assert RootsOf([r]) == [r] by {
      assert [r][1..] == [];
    }
    assert RootsOf([r] + block) == [r];
  }

  /** One emitted group in front of a well-laid-out rest keeps the layout. */
  lemma LayoutStep(r: string, block: seq<string>, rest: seq<string>)
    requires IsRoot(r) && Sorted(block)
    requires forall x :: x in block ==> !IsRoot(x) && ParentOf(x) == r
    requires Layout(rest)
    ensures Layout(([r] + block) + rest)
  {
    BlockLayout(r, block);
    LayoutAppend([r] + block, rest);
  }

  lemma {:induction false} EmitShape(rs: seq<string>, groups: map<string, seq<string>>)
    requires forall r :: r in rs ==> r in groups && IsRoot(r)
    requires ChildMap(groups)
    ensures RootsOf(Emit(rs, groups)) == rs
    ensures Layout(Emit(rs, groups))
    decreases |rs|
  {
    if |rs| > 0 {
      var r := rs[0];
      SortedBlock(groups, r);
      assert forall r' :: r' in rs[1..] ==> r' in rs;
      EmitShape(rs[1..], groups);
      assert Emit(rs, groups) == ([r] + Sort(groups[r])) + Emit(rs[1..], groups);
      RootsStep(r, Sort(groups[r]), Emit(rs[1..], groups));
      LayoutStep(r, Sort(groups[r]), Emit(rs[1..], groups));
      assert rs == [r] + rs[1..];
    }
  }

  /** The roots appear in sorted order, and each is followed by its own
      subtags, in sorted order. */
  lemma OutputOrder(tags: seq<string>)
    ensures Sorted(RootsOf(SortTagsWithSubtags(tags)))
    ensures multiset(RootsOf(SortTagsWithSubtags(tags))) == multiset(Group(tags).roots)
    ensures Layout(SortTagsWithSubtags(tags))
  {
    EmitReady(tags);
    EmitShape(Sort(Group(tags).roots), Group(tags).groups);
  }

  /** The `i`-th listed root is followed by its whole group, sorted: the
      emitted list splits around that block. */
  lemma {:induction false} EmitSplit(rs: seq<string>, groups: map<string, seq<string>>, i: nat)
    requires forall r :: r in rs ==> r in groups
    requires i < |rs|
    ensures Emit(rs, groups)
         == Emit(rs[..i], groups) + ([rs[i]] + Sort(groups[rs[i]])) + Emit(rs[i + 1 ..], groups)
    decreases i
  {
    if i > 0 {
      var tail := rs[1..];
      TailSlices(rs, i);
      EmitSplit(tail, groups, i - 1);
      EmitPrefixStep(rs, groups, i);
      EmitConsStep(rs, groups);
      Regroup(Emit(rs, groups), [rs[0]] + Sort(groups[rs[0]]), Emit(tail, groups),
              Emit(rs[1..i], groups), [rs[i]] + Sort(groups[rs[i]]), Emit(rs[i + 1 ..], groups),
              Emit(rs[..i], groups));
    }
  }

  lemma TailSlices<T>(rs: seq<T>, i: nat)
    requires 0 < i < |rs|
    ensures rs[1..][..i - 1] == rs[1..i] && rs[1..][i - 1] == rs[i] && rs[1..][i..] == rs[i + 1 ..]
  {
  }

  /** Emitting a non-empty root list starts with its first root's block. */
  lemma EmitConsStep(rs: seq<string>, groups: map<string, seq<string>>)
    requires forall r :: r in rs ==> r in groups
    requires 0 < |rs|
    ensures Emit(rs, groups) == [rs[0]] + Sort(groups[rs[0]]) + Emit(rs[1..], groups)
  {
  }

  lemma Regroup<T>(e: seq<T>, head: seq<T>, t: seq<T>, p: seq<T>, block: seq<T>, rest: seq<T>, q: seq<T>)
    requires e == head + t && t == p + block + rest && q == head + p
    ensures e == q + block + rest
  {
  }

  /** Peeling the first root off a non-empty prefix of the root list. */
  lemma EmitPrefixStep(rs: seq<string>, groups: map<string, seq<string>>, i: nat)
    requires forall r :: r in rs ==> r in groups
    requires 0 < i <= |rs|
    ensures Emit(rs[..i], groups) == [rs[0]] + Sort(groups[rs[0]]) + Emit(rs[1..i], groups)
  {
    assert rs[..i][0] == rs[0] && rs[..i][1..] == rs[1..i];
  }

  /** Every listing of a root in the sorted root list, a repeated one
      included, is followed in the output by all the subtags grouped under
      it, sorted. */
  lemma EveryListingEmitsWholeGroup(tags: seq<string>, i: nat)
    requires i < |Group(tags).roots|
    ensures var roots := Sort(Group(tags).roots);
            var g := Group(tags).groups;
            && |roots| == |Group(tags).roots|
            && (forall r :: r in roots ==> r in g)
            && SortTagsWithSubtags(tags)
            == Emit(roots[..i], g) + ([roots[i]] + Sort(Children(tags, roots[i])))
               + Emit(roots[i + 1 ..], g)
  {
    var roots := Sort(Group(tags).roots);
    assert |roots| == |multiset(roots)| == |multiset(Group(tags).roots)|;
    EmitReady(tags);
    EmitSplit(roots, Group(tags).groups, i);
  }

  /* ---- Worked examples ---- */

  /** The parent of a one-level subtag is the text before the slash. */
  lemma ParentOfExample(tag: string)
    requires tag == "a/x" || tag == "a/y"
    ensures !IsRoot(tag) && ParentOf(tag) == "a"
  {
    assert tag[1] == '/';
    var p := ParentOf(tag);
    assert tag[0] != '/';
    assert |p| == 1;
  }

  /** A deeper subtag is grouped under its first segment only. */
  lemma NestedSubtagExample(tag: string)
    requires tag == "a/b/c"
    ensures !IsRoot(tag) && ParentOf(tag) == "a"
  {
    assert tag[1] == '/';
    var p := ParentOf(tag);
    assert tag[0] != '/';
    assert |p| == 1;
  }

  /** The first loop processes the tags in input order. */
  lemma GroupSnoc(tags: seq<string>, t: string)
    ensures Group(tags + [t]) == AddTag(Group(tags), t)
  {
    assert (tags + [t])[..|tags|] == tags;
  }

  lemma AddSubtagExisting(g: Grouping, t: string, p: string)
    requires !IsRoot(t) && ParentOf(t) == p && p in g.roots && p in g.groups
    ensures AddTag(g, t) == Grouping(g.roots, g.groups[p := g.groups[p] + [t]])
  {
  }

  lemma AddSubtagNew(g: Grouping, t: string, p: string)
    requires !IsRoot(t) && ParentOf(t) == p && p !in g.roots && p !in g.groups
    ensures AddTag(g, t) == Grouping(g.roots + [p], g.groups[p := [t]])
  {
    var m := g.groups[p := []];
    assert m[p] + [t] == [t];
    UpdateTwice(g.groups, p, [], [t]);
  }

  lemma UpdateTwice<K, V>(m: map<K, V>, k: K, v1: V, v2: V)
    ensures m[k := v1][k := v2] == m[k := v2]
  {
    assert m[k := v1][k := v2].Keys == m[k := v2].Keys;
  }

  lemma GroupRootFirst(b: string)
    requires IsRoot(b)
    ensures Group([b]) == Grouping([b], map[b := []])
  {
    GroupSnoc([], b);
    assert [] + [b] == [b];
  }

  lemma GroupRootThenChild(b: string, y: string, a: string)
    requires IsRoot(b) && !IsRoot(y) && ParentOf(y) == a && a != b
    ensures Group([b, y]) == Grouping([b, a], map[b := []][a := [y]])
  {
    GroupSnoc([b], y);
    assert [b] + [y] == [b, y];
    GroupRootFirst(b);
    AddSubtagNew(Group([b]), y, a);
  }

  /** A further subtag of a listed root joins the end of its group. */
  lemma GroupRootThenTwoChildren(b: string, y: string, x: string, a: string)
    requires IsRoot(b) && a != b
    requires !IsRoot(y) && ParentOf(y) == a && !IsRoot(x) && ParentOf(x) == a
    ensures Group([b, y, x]) == Grouping([b, a], map[b := []][a := [y, x]])
  {
    GroupRootThenChild(b, y, a);
    GroupSnoc([b, y], x);
    assert [b, y] + [x] == [b, y, x];
    AddSubtagExisting(Group([b, y]), x, a);
    UpdateTwice(map[b := []], a, [y], [y] + [x]);
    assert [y] + [x] == [y, x];
  }

  lemma GroupThree(tags: seq<string>)
    requires tags == ["b", "a/y", "a/x"]
    ensures Group(tags) == Grouping(["b", "a"], map["b" := []]["a" := ["a/y", "a/x"]])
  {
    ParentOfExample("a/y");
    ParentOfExample("a/x");
    assert IsRoot("b");
    GroupRootThenTwoChildren("b", "a/y", "a/x", "a");
  }

  lemma SortTwo(a: string, b: string)
    requires LexLe(a, b)
    ensures Sort([b, a]) == [a, b]
  {
    assert multiset([b, a]) == multiset([a, b]);
    assert Sorted([a, b]);
    SortedPermutationUnique(Sort([b, a]), [a, b]);
  }

  lemma EmitInOrder(a: string, b: string, x: string, y: string, groups: map<string, seq<string>>)
    requires a != b && groups == map[b := []][a := [y, x]]
    requires Sort([y, x]) == [x, y]
    ensures Emit([a, b], groups) == [a, x, y, b]
  {
    assert groups[a] == [y, x] && groups[b] == [];
    SortIdempotent([]);
    var rest := [a, b][1..];
    assert rest == [b] && rest[1..] == [];
    assert Emit(rest, groups) == [b] + Sort([]) + Emit([], groups);
    assert Emit([a, b], groups) == [a] + Sort([y, x]) + Emit(rest, groups);
  }

  lemma EmitTwoGroups(a: string, b: string, x: string, y: string)
    requires a != b && LexLe(a, b) && LexLe(x, y)
    ensures Emit(Sort([b, a]), map[b := []][a := [y, x]]) == [a, x, y, b]
  {
    SortTwo(a, b);
    SortTwo(x, y);
    EmitInOrder(a, b, x, y, map[b := []][a := [y, x]]);
  }

  /** Roots and the subtags under each root both come out sorted. */
  lemma SortExample(tags: seq<string>)
    requires tags == ["b", "a/y", "a/x"]
    ensures SortTagsWithSubtags(tags) == ["a", "a/x", "a/y", "b"]
  {
    GroupThree(tags);
    assert LexLe("a", "b");
    assert LexLe("a/x", "a/y");
    EmitTwoGroups("a", "b", "a/x", "a/y");
  }

  lemma SortSingle(x: string)
    ensures Sort([x]) == [x]
  {
    SortIdempotent([x]);
  }

  lemma SortPairSame(r: string)
    requires LexLe(r, r)
    ensures Sort([r, r]) == [r, r]
  {
    assert Sorted([r, r]);
    SortIdempotent([r, r]);
  }

  lemma EmitSingle(r: string, x: string)
    ensures Emit([r], map[r := [x]]) == [r, x]
  {
    SortSingle(x);
    assert [r][1..] == [];
  }

  lemma EmitTwice(r: string, x: string)
    requires LexLe(r, r)
    ensures Emit(Sort([r, r]), map[r := [x]]) == [r, x, r, x]
  {
    SortPairSame(r);
    SortSingle(x);
    EmitSingle(r, x);
    assert [r, r][1..] == [r];
  }

  lemma AddRootExisting(g: Grouping, t: string)
    requires IsRoot(t) && t in g.groups
    ensures AddTag(g, t) == Grouping(g.roots + [t], g.groups)
  {
  }

  lemma GroupChildFirst(x: string, a: string)
    requires !IsRoot(x) && ParentOf(x) == a
    ensures Group([x]) == Grouping([a], map[a := [x]])
  {
    GroupSnoc([], x);
    assert [] + [x] == [x];
    AddSubtagNew(Group([]), x, a);
  }

  /** A root listed after its subtag is appended again to the roots. */
  lemma GroupChildThenRoot(x: string, a: string)
    requires !IsRoot(x) && ParentOf(x) == a && IsRoot(a)
    ensures Group([x, a]) == Grouping([a, a], map[a := [x]])
  {
    GroupSnoc([x], a);
    assert [x] + [a] == [x, a];
    GroupChildFirst(x, a);
    AddRootAgain(Group([x]), a, x);
  }

  lemma AddRootAgain(g: Grouping, a: string, x: string)
    requires g == Grouping([a], map[a := [x]]) && IsRoot(a)
    ensures AddTag(g, a) == Grouping([a, a], map[a := [x]])
  {
    AddRootExisting(g, a);
    assert g.roots + [a] == [a, a];
  }

  lemma GroupRootThenOwnChild(a: string, x: string)
    requires IsRoot(a) && !IsRoot(x) && ParentOf(x) == a
    ensures Group([a, x]) == Grouping([a], map[a := [x]])
  {
    GroupSnoc([a], x);
    assert [a] + [x] == [a, x];
    GroupRootFirst(a);
    AddSubtagExisting(Group([a]), x, a);
    assert [] + [x] == [x];
    UpdateTwice(map[], a, [], [x]);
  }

  /** A root seen after one of its subtags is listed twice, so its group
      is emitted twice. */
  lemma RootAfterSubtagListedTwice(tags: seq<string>)
    requires tags == ["a/x", "a"]
    ensures SortTagsWithSubtags(tags) == ["a", "a/x", "a", "a/x"]
  {
    ParentOfExample("a/x");
    assert IsRoot("a");
    GroupChildThenRoot("a/x", "a");
    LexLeReflexive("a");
    EmitTwice("a", "a/x");
  }

  lemma EmitOnce(r: string, x: string)
    ensures Emit(Sort([r]), map[r := [x]]) == [r, x]
  {
    SortSingle(r);
    EmitSingle(r, x);
  }

  /** A root seen before its subtags is listed once. */
  lemma RootBeforeSubtagListedOnce(tags: seq<string>)
    requires tags == ["a", "a/x"]
    ensures SortTagsWithSubtags(tags) == ["a", "a/x"]
  {
    ParentOfExample("a/x");
    assert IsRoot("a");
    GroupRootThenOwnChild("a", "a/x");
    EmitOnce("a", "a/x");
  }
}
