/**
 * `curate_similar`: the deduplication step. Elements are taken in order; each joins the first
 * existing group whose FIRST member is the same locus as it, or opens a new group; then one
 * member of maximal length is kept per group. The comparison and the length are parameters,
 * so one definition serves LTRs and putative ERVs alike.
 */
module Curation {
  import opened Enumerable

  predicate NonEmptyGroups<T>(groups: seq<seq<T>>)
  {
    forall g :: 0 <= g < |groups| ==> |groups[g]| > 0
  }

  /** `grouped_elements.find { |group| group.first == x }`, as an index: `|groups|` when none matches. */
  function FirstMatch<T>(groups: seq<seq<T>>, x: T, same: (T, T) -> bool): (k: nat)
    requires NonEmptyGroups(groups)
    ensures k <= |groups|
    ensures forall g :: 0 <= g < k ==> !same(groups[g][0], x)
    ensures k < |groups| ==> same(groups[k][0], x)
  {
    if |groups| == 0 then 0
    else if same(groups[0][0], x) then 0
    else 1 + FirstMatch(groups[1..], x, same)
  }

  /** One step of the `inject`: `x` is appended to the first matching group, or opens a new group at the end. */
  function Place<T>(groups: seq<seq<T>>, x: T, same: (T, T) -> bool): (r: seq<seq<T>>)
    requires NonEmptyGroups(groups)
    ensures NonEmptyGroups(r)
    ensures |groups| <= |r| <= |groups| + 1
    ensures |r| == |groups| + 1 <==> forall g :: 0 <= g < |groups| ==> !same(groups[g][0], x)
  {
    var k := FirstMatch(groups, x, same);
    if k < |groups| then groups[k := groups[k] + [x]] else groups + [[x]]
  }

  /**
   * The exact shape of a step: with a matching group `k`, only group `k` changes, by gaining `x`
   * at its end; with none, `[x]` is appended as a new last group.
   */
  lemma {:induction false} PlaceShape<T>(groups: seq<seq<T>>, x: T, same: (T, T) -> bool)
    requires NonEmptyGroups(groups)
    ensures var r := Place(groups, x, same); var k := FirstMatch(groups, x, same);
      if k < |groups| then
        |r| == |groups| && r[k] == groups[k] + [x] && forall g :: 0 <= g < |groups| && g != k ==> r[g] == groups[g]
      else
        r == groups + [[x]]
  {
  }

  /** A step of the `inject` loses nothing and adds exactly `x`. */
  lemma {:induction false} PlaceAdds<T(!new)>(groups: seq<seq<T>>, x: T, same: (T, T) -> bool)
    requires NonEmptyGroups(groups)
    ensures multiset(Concat(Place(groups, x, same))) == multiset(Concat(groups)) + multiset{x}
  {
    var k := FirstMatch(groups, x, same);
    if k < |groups| {
      ConcatGrow(groups, k, x);
    } else {
      ConcatAppend(groups, [x]);
    }
  }

  /** The groups built by the whole `inject` over `elements`. */
  function Group<T>(elements: seq<T>, same: (T, T) -> bool): (r: seq<seq<T>>)
    ensures NonEmptyGroups(r)
    ensures |r| <= |elements|
  {
    if |elements| == 0 then []
    else Place(Group(elements[..|elements| - 1], same), elements[|elements| - 1], same)
  }

  /** `group.sort_by(&:length).last`: a member of maximal length; on ties the latest such member. */
  function Longest<T>(group: seq<T>, len: T -> int): (r: T)
    requires |group| > 0
    ensures exists m :: 0 <= m < |group| && group[m] == r
    ensures forall m :: 0 <= m < |group| ==> len(group[m]) <= len(r)
  {
    if |group| == 1 then group[0]
    else
      var best := Longest(group[..|group| - 1], len);
      if len(best) <= len(group[|group| - 1]) then group[|group| - 1] else best
  }

  /** What `curate_similar` returns: the representative of each group, in group order. */
  function Curate<T>(elements: seq<T>, same: (T, T) -> bool, len: T -> int): seq<T>
  {
    var groups := Group(elements, same);
    seq(|groups|, g requires 0 <= g < |groups| => Longest(groups[g], len))
  }

  /** `curate_similar`, threading the list of groups through the elements and growing one group in place. */
  method CurateSimilar<T>(elements: seq<T>, same: (T, T) -> bool, len: T -> int) returns (curated: seq<T>)
    ensures curated == Curate(elements, same, len)
  {
    var groups: seq<seq<T>> := [];
    var i := 0;
    while i < |elements|
      invariant 0 <= i <= |elements|
      invariant groups == Group(elements[..i], same)
    {
      var x := elements[i];
      var k := 0;
      while k < |groups| && !same(groups[k][0], x)
        invariant 0 <= k <= |groups|
        invariant forall g :: 0 <= g < k ==> !same(groups[g][0], x)
      {
        k := k + 1;
      }
      GroupStep(elements, i, same);
      PlaceAt(groups, x, same, k);
      if k < |groups| {
        groups := groups[k := groups[k] + [x]];
      } else {
        groups := groups + [[x]];
      }
      i := i + 1;
    }
    assert elements[..i] == elements;
    curated := seq(|groups|, g requires 0 <= g < |groups| => Longest(groups[g], len));
  }

  /** What the scan for the first matching group finds is where `x` is placed. */
  lemma {:induction false} PlaceAt<T>(groups: seq<seq<T>>, x: T, same: (T, T) -> bool, k: nat)
    requires NonEmptyGroups(groups)
    requires k <= |groups| && forall g :: 0 <= g < k ==> !same(groups[g][0], x)
    requires k < |groups| ==> same(groups[k][0], x)
    ensures k == FirstMatch(groups, x, same)
    ensures Place(groups, x, same) == if k < |groups| then groups[k := groups[k] + [x]] else groups + [[x]]
  {
  }

  /** The groups of a longer prefix place one more element into the groups of the shorter one. */
  lemma {:induction false} GroupStep<T>(elements: seq<T>, i: nat, same: (T, T) -> bool)
    requires i < |elements|
    ensures Group(elements[..i + 1], same) == Place(Group(elements[..i], same), elements[i], same)
  {
    assert elements[..i + 1][..i] == elements[..i];
  }

  // ---------------------------------------------------------------------------------------
  // What grouping promises
  // ---------------------------------------------------------------------------------------

  /**
   * Every member of group `g` is the same locus as that group's first member (members after the
   * first), and is the same locus as the first member of no earlier group.
   */
  ghost predicate WellGrouped<T>(groups: seq<seq<T>>, same: (T, T) -> bool)
  {
    && NonEmptyGroups(groups)
    && (forall g, m :: 0 <= g < |groups| && 0 < m < |groups[g]| ==> same(groups[g][0], groups[g][m]))
    && (forall h, g, m :: 0 <= h < g < |groups| && 0 <= m < |groups[g]| ==> !same(groups[h][0], groups[g][m]))
  }

  lemma {:induction false} PlaceKeepsWellGrouped<T>(groups: seq<seq<T>>, x: T, same: (T, T) -> bool)
    requires WellGrouped(groups, same)
    ensures WellGrouped(Place(groups, x, same), same)
  {
    var k := FirstMatch(groups, x, same);
    var r := Place(groups, x, same);
    if k < |groups| {
      assert forall g :: 0 <= g < |r| && g != k ==> r[g] == groups[g];
      assert r[k] == groups[k] + [x];
      assert forall m :: 0 <= m < |groups[k]| ==> r[k][m] == groups[k][m];
    } else {
      assert forall g :: 0 <= g < |groups| ==> r[g] == groups[g];
      assert r[|groups|] == [x];
    }
  }

  /** Each element joins the first group whose first member matches it, otherwise opens a new group. */
  lemma {:induction false} GroupIsWellGrouped<T>(elements: seq<T>, same: (T, T) -> bool)
    ensures WellGrouped(Group(elements, same), same)
  {
    if |elements| > 0 {
      GroupIsWellGrouped(elements[..|elements| - 1], same);
      PlaceKeepsWellGrouped(Group(elements[..|elements| - 1], same), elements[|elements| - 1], same);
    }
  }

  lemma {:induction false} ConcatAppend<T(!new)>(groups: seq<seq<T>>, t: seq<T>)
    ensures Concat(groups + [t]) == Concat(groups) + t
  {
    if |groups| > 0 {
      assert (groups + [t])[1..] == groups[1..] + [t];
      ConcatAppend(groups[1..], t);
    }
  }

  lemma {:induction false} ConcatGrow<T(!new)>(groups: seq<seq<T>>, k: nat, x: T)
    requires k < |groups|
    ensures multiset(Concat(groups[k := groups[k] + [x]])) == multiset(Concat(groups)) + multiset{x}
  {
    var r := groups[k := groups[k] + [x]];
    if k == 0 {
      assert r[1..] == groups[1..];
    } else {
      assert r[1..] == groups[1..][k - 1 := groups[k] + [x]];
      ConcatGrow(groups[1..], k - 1, x);
    }
  }

  /** The groups partition the input: together they hold exactly its elements, each as often. */
  lemma {:induction false} GroupPartitions<T(!new)>(elements: seq<T>, same: (T, T) -> bool)
    ensures multiset(Concat(Group(elements, same))) == multiset(elements)
  {
    if |elements| > 0 {
      var init := elements[..|elements| - 1];
      var x := elements[|elements| - 1];
      GroupPartitions(init, same);
      PlaceAdds(Group(init, same), x, same);
      assert elements == init + [x];
    }
  }

  /** Every member of every group comes from the input. */
  lemma {:induction false} GroupMembersFromInput<T(!new)>(elements: seq<T>, same: (T, T) -> bool, g: nat, m: nat)
    requires g < |Group(elements, same)| && m < |Group(elements, same)[g]|
    ensures Group(elements, same)[g][m] in elements
  {
    var groups := Group(elements, same);
    GroupPartitions(elements, same);
    ConcatHolds(groups, g, m);
  }

  lemma {:induction false} ConcatHolds<T(!new)>(groups: seq<seq<T>>, g: nat, m: nat)
    requires g < |groups| && m < |groups[g]|
    ensures groups[g][m] in multiset(Concat(groups))
  {
    if g == 0 {
      assert groups[0][m] in groups[0];
    } else {
      ConcatHolds(groups[1..], g - 1, m);
    }
  }

  /**
   * `curate_similar` keeps one element per group, a member of that group of maximal length, so
   * it returns no more elements than it was given, all taken from the input.
   */
  lemma {:induction false} CurateRepresentatives<T(!new)>(elements: seq<T>, same: (T, T) -> bool, len: T -> int)
    ensures |Curate(elements, same, len)| == |Group(elements, same)| <= |elements|
    ensures forall g :: 0 <= g < |Curate(elements, same, len)| ==> Curate(elements, same, len)[g] in Group(elements, same)[g]
    ensures forall g, m :: 0 <= g < |Curate(elements, same, len)| && 0 <= m < |Group(elements, same)[g]| ==>
              len(Group(elements, same)[g][m]) <= len(Curate(elements, same, len)[g])
    ensures forall g :: 0 <= g < |Curate(elements, same, len)| ==> Curate(elements, same, len)[g] in elements
  {
    var groups := Group(elements, same);
    var r := Curate(elements, same, len);
    forall g | 0 <= g < |r|
      ensures r[g] in groups[g] && r[g] in elements
    {
      assert r[g] == Longest(groups[g], len);
      var m :| 0 <= m < |groups[g]| && groups[g][m] == r[g];
      GroupMembersFromInput(elements, same, g, m);
    }
  }

  /** Curating a concatenation keeps only elements of its parts. */
  /** Curation keeps only elements of its input and never lengthens the list. */
  lemma {:induction false} CurateWithin<T(!new)>(elements: seq<T>, same: (T, T) -> bool, len: T -> int)
    ensures |Curate(elements, same, len)| <= |elements|
    ensures forall x :: x in Curate(elements, same, len) ==> x in elements
  {
    CurateRepresentatives(elements, same, len);
    var r := Curate(elements, same, len);
    forall x | x in r ensures x in elements {
      var g :| 0 <= g < |r| && r[g] == x;
    }
  }

  lemma {:induction false} CurateOfConcat<T(!new)>(parts: seq<seq<T>>, same: (T, T) -> bool, len: T -> int)
    ensures forall x :: x in Curate(Concat(parts), same, len) ==> exists i :: 0 <= i < |parts| && x in parts[i]
  {
    CurateWithin(Concat(parts), same, len);
    var r := Curate(Concat(parts), same, len);
    forall x | x in r ensures exists i :: 0 <= i < |parts| && x in parts[i] {
      assert x in Concat(parts);
    }
  }

  // ---------------------------------------------------------------------------------------
  // Idempotence holds only for an equivalence
  // ---------------------------------------------------------------------------------------

  ghost predicate Equivalence<T(!new)>(same: (T, T) -> bool)
  {
    && (forall a :: same(a, a))
    && (forall a, b :: same(a, b) ==> same(b, a))
    && (forall a, b, c :: same(a, b) && same(b, c) ==> same(a, c))
  }

  function Singletons<T>(s: seq<T>): (r: seq<seq<T>>)
    ensures |r| == |s| && forall i :: 0 <= i < |s| ==> r[i] == [s[i]]
  {
    seq(|s|, i requires 0 <= i < |s| => [s[i]])
  }

  /** When no two elements match, every element opens its own group. */
  lemma {:induction false} GroupOfUnrelated<T>(s: seq<T>, same: (T, T) -> bool)
    requires forall i, j :: 0 <= i < j < |s| ==> !same(s[i], s[j])
    ensures Group(s, same) == Singletons(s)
  {
    if |s| > 0 {
      var init := s[..|s| - 1];
      GroupOfUnrelated(init, same);
      var x := s[|s| - 1];
      assert FirstMatch(Singletons(init), x, same) == |init|;
      assert Singletons(init) + [[x]] == Singletons(s);
    }
  }

  /** If the same-locus relation were an equivalence, curating a curated list would change nothing. */
  lemma {:induction false} CurateIdempotentForEquivalence<T(!new)>(elements: seq<T>, same: (T, T) -> bool, len: T -> int)
    requires Equivalence(same)
    ensures Curate(Curate(elements, same, len), same, len) == Curate(elements, same, len)
  {
    var r := Curate(elements, same, len);
    forall i, j | 0 <= i < j < |r| ensures !same(r[i], r[j]) {
      CuratedUnrelated(elements, same, len, i, j);
    }
    GroupOfUnrelated(r, same);
  }

  /** Under an equivalence, no two kept representatives are the same locus. */
  lemma {:induction false} CuratedUnrelated<T(!new)>(elements: seq<T>, same: (T, T) -> bool, len: T -> int, i: nat, j: nat)
    requires Equivalence(same)
    requires i < j < |Curate(elements, same, len)|
    ensures !same(Curate(elements, same, len)[i], Curate(elements, same, len)[j])
  {
    var groups := Group(elements, same);
    var r := Curate(elements, same, len);
    GroupIsWellGrouped(elements, same);
    var mi :| 0 <= mi < |groups[i]| && groups[i][mi] == r[i];
    var mj :| 0 <= mj < |groups[j]| && groups[j][mj] == r[j];
    assert !same(groups[i][0], r[j]);
    assert same(groups[i][0], r[i]);
  }
}
