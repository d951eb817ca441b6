/**
 * Greedy grouping of articles by similarity. Items are visited in index
 * order; an item not yet in a group seeds a new one, which then takes every
 * later unclaimed item whose similarity to the seed exceeds the threshold.
 * The similarity matrix is a parameter (its cosine computation is not part
 * of this model); group ids are the positions in the returned sequence.
 */
module Grouping {

  /** An n-by-n matrix of similarities. */
  predicate IsSquare(sim: seq<seq<real>>)
  {
    forall i :: 0 <= i < |sim| ==> |sim[i]| == |sim|
  }

  function Elems(g: seq<nat>): set<nat>
  {
    set x | x in g
  }

  /** Every index that occurs in one of the groups. */
  function Claimed(gs: seq<seq<nat>>): set<nat>
  {
    if gs == [] then {} else Claimed(gs[..|gs| - 1]) + Elems(gs[|gs| - 1])
  }

  predicate StrictlyIncreasing(g: seq<nat>)
  {
    forall a, b :: 0 <= a < b < |g| ==> g[a] < g[b]
  }

  /**
   * `j` joins the group of `seed` when earlier groups claimed `before`: it
   * comes later, is strictly more similar than the threshold and is free.
   */
  predicate Joins(sim: seq<seq<real>>, t: real, seed: nat, j: nat, before: set<nat>)
    requires IsSquare(sim) && seed < |sim|
  {
    seed < j < |sim| && sim[seed][j] > t && j !in before
  }

  /**
   * Group `g` is the one the greedy pass builds after groups `gs[..g]`: its
   * seed is the smallest index those groups left free, and the rest are, in
   * increasing order, exactly the indices that join the seed.
   */
  ghost predicate IsGroupOf(sim: seq<seq<real>>, t: real, gs: seq<seq<nat>>, g: nat)
    requires IsSquare(sim) && g < |gs|
  {
    var before := Claimed(gs[..g]);
    var grp := gs[g];
    |grp| > 0 && grp[0] < |sim| && grp[0] !in before
    && (forall k :: 0 <= k < grp[0] ==> k in before)
    && StrictlyIncreasing(grp)
    && (forall m :: 1 <= m < |grp| ==> Joins(sim, t, grp[0], grp[m], before))
    && (forall j :: Joins(sim, t, grp[0], j, before) ==> j in grp)
  }

  /** `gs` is the outcome of the greedy pass: every group as built, every index claimed. */
  ghost predicate GreedyGrouping(sim: seq<seq<real>>, t: real, gs: seq<seq<nat>>)
    requires IsSquare(sim)
  {
    (forall g :: 0 <= g < |gs| ==> |gs[g]| > 0 && IsGroupOf(sim, t, gs, g))
    && (forall j :: 0 <= j < |sim| ==> j in Claimed(gs))
  }

  /** Appending a group does not change what the earlier ones are. */
  lemma GroupOfAfterAppend(sim: seq<seq<real>>, t: real, gs: seq<seq<nat>>, x: seq<nat>, g: nat)
    requires IsSquare(sim) && g < |gs|
    ensures IsGroupOf(sim, t, gs + [x], g) <==> IsGroupOf(sim, t, gs, g)
  {
    assert (gs + [x])[..g] == gs[..g];
    assert (gs + [x])[g] == gs[g];
  }

  /**
   * `group_by_cosine_similarity`: the groups of the greedy pass, indexed by
   * group id.
   */
  method GroupBySimilarity(sim: seq<seq<real>>, threshold: real) returns (groups: seq<seq<nat>>)
    requires IsSquare(sim)
    ensures GreedyGrouping(sim, threshold, groups)
  {
    var n := |sim|;
    groups := [];
    var taken: set<nat> := {};
    for i := 0 to n
      invariant taken == Claimed(groups)
      invariant forall k :: 0 <= k < i ==> k in taken
      invariant forall g :: 0 <= g < |groups| ==> |groups[g]| > 0 && IsGroupOf(sim, threshold, groups, g)
    {
      if i !in taken {
        var group;
        group, taken := GrowGroup(sim, threshold, i, taken);
        NewGroup(sim, threshold, groups, group);
        groups := groups + [group];
      }
    }
  }

  /**
   * The inner pass that seeds a group at the free index `i`: every later
   * index more similar to the seed than the threshold and still free joins,
   * in increasing order, and is marked taken.
   */
  method GrowGroup(sim: seq<seq<real>>, threshold: real, i: nat, before: set<nat>)
    returns (group: seq<nat>, taken: set<nat>)
    requires IsSquare(sim) && i < |sim| && i !in before
    ensures |group| >= 1 && group[0] == i && StrictlyIncreasing(group)
    ensures forall m :: 1 <= m < |group| ==> Joins(sim, threshold, i, group[m], before)
    ensures forall x: nat :: x < |sim| && Joins(sim, threshold, i, x, before) ==> x in group
    ensures taken == before + Elems(group)
  {
    var n := |sim|;
    group := [i];
    taken := before + {i};
    for j := i + 1 to n
      invariant |group| >= 1 && group[0] == i
      invariant StrictlyIncreasing(group)
      invariant forall m :: 0 <= m < |group| ==> group[m] < j
      invariant forall m :: 1 <= m < |group| ==> Joins(sim, threshold, i, group[m], before)
      invariant forall x: nat :: x < j && Joins(sim, threshold, i, x, before) ==> x in group
      invariant taken == before + Elems(group)
    {
      if sim[i][j] > threshold && j !in taken {
        group := group + [j];
        taken := taken + {j};
      }
    }
  }

  /**
   * A group grown from the first free index by the inner pass is the next
   * group of the greedy grouping; the earlier groups stay what they were.
   */
  lemma NewGroup(sim: seq<seq<real>>, t: real, gs: seq<seq<nat>>, group: seq<nat>)
    requires IsSquare(sim)
    requires forall g :: 0 <= g < |gs| ==> |gs[g]| > 0 && IsGroupOf(sim, t, gs, g)
    requires |group| >= 1 && group[0] < |sim| && group[0] !in Claimed(gs)
    requires forall k :: 0 <= k < group[0] ==> k in Claimed(gs)
    requires StrictlyIncreasing(group)
    requires forall m :: 1 <= m < |group| ==> Joins(sim, t, group[0], group[m], Claimed(gs))
    requires forall x: nat :: x < |sim| && Joins(sim, t, group[0], x, Claimed(gs)) ==> x in group
    ensures forall g :: 0 <= g < |gs| + 1 ==> |(gs + [group])[g]| > 0 && IsGroupOf(sim, t, gs + [group], g)
    ensures Claimed(gs + [group]) == Claimed(gs) + Elems(group)
  {
    var next := gs + [group];
    assert next[..|gs|] == gs;
    forall g | 0 <= g < |gs| {
      GroupOfAfterAppend(sim, t, gs, group, g);
    }
    assert IsGroupOf(sim, t, next, |gs|);
  }

  /** An index is claimed exactly when some group holds it. */
  lemma {:induction false} ClaimedMembers(gs: seq<seq<nat>>, x: nat)
    ensures x in Claimed(gs) <==> exists g :: 0 <= g < |gs| && x in gs[g]
    decreases |gs|
  {
    if gs != [] {
      var init := gs[..|gs| - 1];
      ClaimedMembers(init, x);
      if x in Claimed(init) {
        var g :| 0 <= g < |init| && x in init[g];
        assert gs[g] == init[g];
      }
      if exists g :: 0 <= g < |gs| && x in gs[g] {
        var g :| 0 <= g < |gs| && x in gs[g];
        if g < |init| {
          assert init[g] == gs[g];
        }
      }
    }
  }

  /** What an earlier group holds is claimed before a later one is built. */
  lemma InEarlierGroup(gs: seq<seq<nat>>, g1: nat, g2: nat, x: nat)
    requires g1 < g2 <= |gs| && x in gs[g1]
    ensures x in Claimed(gs[..g2])
  {
    assert gs[..g2][g1] == gs[g1];
    ClaimedMembers(gs[..g2], x);
  }

  /** The indices claimed only grow as groups are added. */
  lemma ClaimedGrows(gs: seq<seq<nat>>, g1: nat, g2: nat)
    requires g1 <= g2 <= |gs|
    ensures Claimed(gs[..g1]) <= Claimed(gs[..g2])
  {
    forall x | x in Claimed(gs[..g1])
      ensures x in Claimed(gs[..g2])
    {
      ClaimedMembers(gs[..g1], x);
      var g :| 0 <= g < g1 && x in gs[..g1][g];
      assert gs[..g1][g] == gs[g];
      InEarlierGroup(gs, g, g2, x);
    }
  }

  /** Every member of a group is an index, and none was claimed by an earlier group. */
  lemma MembersFresh(sim: seq<seq<real>>, t: real, gs: seq<seq<nat>>, g: nat)
    requires IsSquare(sim) && g < |gs| && IsGroupOf(sim, t, gs, g)
    ensures forall y :: y in gs[g] ==> y < |sim| && y !in Claimed(gs[..g])
  {
    forall y | y in gs[g]
      ensures y < |sim| && y !in Claimed(gs[..g])
    {
      var m :| 0 <= m < |gs[g]| && gs[g][m] == y;
      if m > 0 {
        assert Joins(sim, t, gs[g][0], gs[g][m], Claimed(gs[..g]));
      }
    }
  }

  /** A member of a group is its seed or an index that joins the seed. */
  lemma MembersOf(sim: seq<seq<real>>, t: real, gs: seq<seq<nat>>, g: nat)
    requires IsSquare(sim) && g < |gs| && IsGroupOf(sim, t, gs, g)
    ensures forall y :: y in gs[g] <==> y == gs[g][0] || Joins(sim, t, gs[g][0], y, Claimed(gs[..g]))
  {
    forall y | y in gs[g]
      ensures y == gs[g][0] || Joins(sim, t, gs[g][0], y, Claimed(gs[..g]))
    {
      var m :| 0 <= m < |gs[g]| && gs[g][m] == y;
      if m > 0 {
        assert Joins(sim, t, gs[g][0], gs[g][m], Claimed(gs[..g]));
      }
    }
  }

  /** What the specification says about group `g`, for any `g`. */
  lemma SeedFacts(sim: seq<seq<real>>, t: real, gs: seq<seq<nat>>, g: nat)
    ensures IsSquare(sim) && GreedyGrouping(sim, t, gs) && g < |gs| ==>
      |gs[g]| > 0 && gs[g][0] < |sim| && gs[g][0] !in Claimed(gs[..g])
  {
  }

  /** Any later member of group `g` joins its seed. */
  lemma MemberJoins(sim: seq<seq<real>>, t: real, gs: seq<seq<nat>>, g: nat, m: nat)
    ensures IsSquare(sim) && GreedyGrouping(sim, t, gs) && g < |gs| && 1 <= m < |gs[g]| ==>
      gs[g][0] < |sim| && Joins(sim, t, gs[g][0], gs[g][m], Claimed(gs[..g]))
  {
  }

  /**
   * The groups partition the indices: every index lies in a group, no
   * index lies in two, and nothing else lies in any.
   */
  lemma Partition(sim: seq<seq<real>>, t: real, gs: seq<seq<nat>>, x: nat)
    requires IsSquare(sim) && GreedyGrouping(sim, t, gs)
    ensures x < |sim| <==> exists g :: 0 <= g < |gs| && x in gs[g]
    ensures forall g1, g2 :: 0 <= g1 < |gs| && 0 <= g2 < |gs| && x in gs[g1] && x in gs[g2] ==> g1 == g2
  {
    ClaimedMembers(gs, x);
    forall g | 0 <= g < |gs|
      ensures x in gs[g] ==> x < |sim|
    {
      MembersFresh(sim, t, gs, g);
    }
    forall g1, g2 | 0 <= g1 < g2 < |gs| && x in gs[g1]
      ensures x !in gs[g2]
    {
      InEarlierGroup(gs, g1, g2, x);
      MembersFresh(sim, t, gs, g2);
    }
  }

  /** Seeds strictly increase with the group id. */
  lemma SeedsIncrease(sim: seq<seq<real>>, t: real, gs: seq<seq<nat>>, g1: nat, g2: nat)
    requires IsSquare(sim) && GreedyGrouping(sim, t, gs) && g1 < g2 < |gs|
    ensures gs[g1][0] < gs[g2][0]
  {
    assert IsGroupOf(sim, t, gs, g1) && IsGroupOf(sim, t, gs, g2);
    InEarlierGroup(gs, g1, g2, gs[g1][0]);
    ClaimedGrows(gs, g1, g2);
  }

  lemma {:induction false} SeedAtLeastId(sim: seq<seq<real>>, t: real, gs: seq<seq<nat>>, g: nat)
    requires IsSquare(sim) && GreedyGrouping(sim, t, gs) && g < |gs|
    ensures gs[g][0] >= g
  {
    if g > 0 {
      SeedAtLeastId(sim, t, gs, g - 1);
      SeedsIncrease(sim, t, gs, g - 1, g);
    }
  }

  /** No items, no groups; otherwise between one and `n` groups. */
  lemma GroupCount(sim: seq<seq<real>>, t: real, gs: seq<seq<nat>>)
    requires IsSquare(sim) && GreedyGrouping(sim, t, gs)
    ensures |sim| == 0 <==> gs == []
    ensures |gs| <= |sim|
  {
    if |sim| > 0 {
      assert 0 in Claimed(gs);
    }
    if gs != [] {
      assert IsGroupOf(sim, t, gs, |gs| - 1);
      SeedAtLeastId(sim, t, gs, |gs| - 1);
    }
  }

  /** No pair is more similar than the threshold. */
  predicate NoSimilarPair(sim: seq<seq<real>>, t: real)
    requires IsSquare(sim)
  {
    forall i, j :: 0 <= i < j < |sim| ==> sim[i][j] <= t
  }

  /** The indices below `n`. */
  function Below(n: nat): (r: set<nat>)
    ensures forall k: nat :: k in r <==> k < n
  {
    if n == 0 then {} else Below(n - 1) + {n - 1}
  }

  /** With no similar pair, the group built once `0..g-1` are claimed is `[g]`. */
  lemma SingletonGroup(sim: seq<seq<real>>, t: real, gs: seq<seq<nat>>, g: nat)
    requires IsSquare(sim) && GreedyGrouping(sim, t, gs) && NoSimilarPair(sim, t) && g < |gs|
    requires Claimed(gs[..g]) == Below(g)
    ensures gs[g] == [g]
  {
    var grp := gs[g];
    var before := Claimed(gs[..g]);
    assert IsGroupOf(sim, t, gs, g);
    assert g !in before;
    assert grp[0] == g;
    MemberJoins(sim, t, gs, g, 1);
  }

  lemma {:induction false} SingletonsUpTo(sim: seq<seq<real>>, t: real, gs: seq<seq<nat>>, g: nat)
    requires IsSquare(sim) && GreedyGrouping(sim, t, gs) && NoSimilarPair(sim, t) && g <= |gs|
    ensures Claimed(gs[..g]) == Below(g)
  {
    if g > 0 {
      SingletonsUpTo(sim, t, gs, g - 1);
      SingletonGroup(sim, t, gs, g - 1);
      assert gs[..g][..g - 1] == gs[..g - 1];
      assert Claimed(gs[..g]) == Claimed(gs[..g - 1]) + Elems(gs[g - 1]);
      assert Elems(gs[g - 1]) == {g - 1};
      assert Below(g) == Below(g - 1) + {g - 1};
    }
  }

  /** With no similar pair every item is its own group, in index order. */
  lemma AllSingletons(sim: seq<seq<real>>, t: real, gs: seq<seq<nat>>)
    requires IsSquare(sim) && GreedyGrouping(sim, t, gs) && NoSimilarPair(sim, t)
    ensures |gs| == |sim|
    ensures forall g :: 0 <= g < |gs| ==> gs[g] == [g]
  {
    SingletonsUpTo(sim, t, gs, |gs|);
    GroupCount(sim, t, gs);
    assert gs[..|gs|] == gs;
    assert |gs| !in Claimed(gs);
    forall g | 0 <= g < |gs|
      ensures gs[g] == [g]
    {
      SingletonsUpTo(sim, t, gs, g);
      SingletonGroup(sim, t, gs, g);
    }
  }

  /** An element of a strictly increasing list is at least its position. */
  lemma {:induction false} AtLeastPosition(s: seq<nat>)
    requires StrictlyIncreasing(s)
    ensures forall i :: 0 <= i < |s| ==> s[i] >= i
  {
    if s != [] {
      var init := s[..|s| - 1];
      AtLeastPosition(init);
      assert forall i :: 0 <= i < |init| ==> init[i] == s[i];
      assert |s| > 1 ==> s[|s| - 2] < s[|s| - 1];
    }
  }

  lemma {:induction false} IncreasingCoverAt(s: seq<nat>, n: nat, i: nat)
    requires StrictlyIncreasing(s)
    requires forall k :: 0 <= k < n ==> k in s
    requires i < |s| && i < n
    ensures s[i] == i
  {
    assert i in s;
    var p :| 0 <= p < |s| && s[p] == i;
    if i > 0 {
      IncreasingCoverAt(s, n, i - 1);
    }
  }

  /** A strictly increasing list of indices below `n` that holds each of them is `[0, ..., n-1]`. */
  lemma IncreasingCover(s: seq<nat>, n: nat)
    requires StrictlyIncreasing(s)
    requires forall i :: 0 <= i < |s| ==> s[i] < n
    requires forall k :: 0 <= k < n ==> k in s
    ensures |s| == n && forall i :: 0 <= i < n ==> s[i] == i
  {
    forall i | 0 <= i < |s| && i < n
      ensures s[i] == i
    {
      IncreasingCoverAt(s, n, i);
    }
    AtLeastPosition(s);
    assert |s| > 0 ==> s[|s| - 1] >= |s| - 1;
    if n > 0 {
      assert n - 1 in s;
      var p :| 0 <= p < |s| && s[p] == n - 1;
    }
  }

  /** When every item is similar enough to the first, there is one group of all items. */
  lemma OneGroup(sim: seq<seq<real>>, t: real, gs: seq<seq<nat>>)
    requires IsSquare(sim) && GreedyGrouping(sim, t, gs) && |sim| > 0
    requires forall j :: 0 < j < |sim| ==> sim[0][j] > t
    ensures |gs| == 1
    ensures |gs[0]| == |sim| && forall i :: 0 <= i < |sim| ==> gs[0][i] == i
  {
    GroupCount(sim, t, gs);
    assert IsGroupOf(sim, t, gs, 0);
    assert gs[..0] == [];
    var grp := gs[0];
    assert 0 !in Claimed(gs[..0]);
    assert grp[0] == 0;
    forall k | 0 < k < |sim|
      ensures k in grp
    {
      assert Joins(sim, t, 0, k, {});
    }
    MembersFresh(sim, t, gs, 0);
    IncreasingCover(grp, |sim|);
    assert Claimed(gs[..1]) == Elems(grp) by {
      assert gs[..1][..0] == [];
    }
    SeedFacts(sim, t, gs, 1);
  }

  /** Two strictly increasing lists with the same elements are equal. */
  lemma {:induction false} SortedUnique(a: seq<nat>, b: seq<nat>)
    requires StrictlyIncreasing(a) && StrictlyIncreasing(b)
    requires forall x :: x in a <==> x in b
    ensures a == b
  {
    assert |a| > 0 ==> a[0] in b;
    assert |b| > 0 ==> b[0] in a;
    if |a| > 0 && |b| > 0 {
      var p :| 0 <= p < |b| && b[p] == a[0];
      var q :| 0 <= q < |a| && a[q] == b[0];
      assert a[0] <= a[q] && b[0] <= b[p];
      assert a[0] == b[0];
      forall x
        ensures x in a[1..] <==> x in b[1..]
      {
        assert x in a[1..] <==> x in a && x != a[0];
        assert x in b[1..] <==> x in b && x != b[0];
      }
      SortedUnique(a[1..], b[1..]);
      assert a == [a[0]] + a[1..] && b == [b[0]] + b[1..];
    }
  }

  /** Groups built after the same earlier groups are the same group. */
  lemma SameGroup(sim: seq<seq<real>>, t: real, gs1: seq<seq<nat>>, gs2: seq<seq<nat>>, k: nat)
    requires IsSquare(sim) && GreedyGrouping(sim, t, gs1) && GreedyGrouping(sim, t, gs2)
    requires k < |gs1| && k < |gs2| && gs1[..k] == gs2[..k]
    ensures gs1[k] == gs2[k]
  {
    assert IsGroupOf(sim, t, gs1, k) && IsGroupOf(sim, t, gs2, k);
    var before := Claimed(gs1[..k]);
    assert before == Claimed(gs2[..k]);
    var s1, s2 := gs1[k][0], gs2[k][0];
    assert s1 !in before && s2 !in before;
    assert s1 == s2;
    MembersOf(sim, t, gs1, k);
    MembersOf(sim, t, gs2, k);
    SortedUnique(gs1[k], gs2[k]);
  }

  lemma {:induction false} SamePrefix(sim: seq<seq<real>>, t: real, gs1: seq<seq<nat>>, gs2: seq<seq<nat>>, k: nat)
    requires IsSquare(sim) && GreedyGrouping(sim, t, gs1) && GreedyGrouping(sim, t, gs2)
    requires k <= |gs1| && k <= |gs2|
    ensures gs1[..k] == gs2[..k]
  {
    if k > 0 {
      SamePrefix(sim, t, gs1, gs2, k - 1);
      SameGroup(sim, t, gs1, gs2, k - 1);
      PrefixExtend(gs1, gs2, k - 1);
    }
  }

  lemma PrefixExtend<T>(a: seq<T>, b: seq<T>, k: nat)
    requires k < |a| && k < |b| && a[..k] == b[..k] && a[k] == b[k]
    ensures a[..k + 1] == b[..k + 1]
  {
    assert a[..k + 1] == a[..k] + [a[k]];
    assert b[..k + 1] == b[..k] + [b[k]];
  }

  /** The specification admits exactly one grouping: the result is determined by the matrix and the threshold. */
  lemma Unique(sim: seq<seq<real>>, t: real, gs1: seq<seq<nat>>, gs2: seq<seq<nat>>)
    requires IsSquare(sim) && GreedyGrouping(sim, t, gs1) && GreedyGrouping(sim, t, gs2)
    ensures gs1 == gs2
  {
    var k := if |gs1| < |gs2| then |gs1| else |gs2|;
    SamePrefix(sim, t, gs1, gs2, k);
    SeedFacts(sim, t, gs1, k);
    SeedFacts(sim, t, gs2, k);
    assert gs1[..|gs1|] == gs1 && gs2[..|gs2|] == gs2;
  }

  /**
   * The cosine similarities, rounded to five places, of the five embeddings
   * of the repository's grouping test: three vectors close to the first
   * axis and two close to the second.
   */
  const TestMatrix: seq<seq<real>> := [
    [1.0, 0.99995, 0.99979, 0.0, 0.0],
    [0.99995, 1.0, 0.99995, 0.0101, 0.0101],
    [0.99979, 0.99995, 1.0, 0.0204, 0.0204],
    [0.0, 0.0101, 0.0204, 1.0, 0.99995],
    [0.0, 0.0101, 0.0204, 0.99995, 1.0]
  ]

  lemma TestFirstGroup()
    ensures IsSquare(TestMatrix) && IsGroupOf(TestMatrix, 0.95, [[0, 1, 2], [3, 4]], 0)
  {
    var gs: seq<seq<nat>> := [[0, 1, 2], [3, 4]];
    assert gs[..0] == [];
    forall j | Joins(TestMatrix, 0.95, 0, j, {})
      ensures j in gs[0]
    {
      assert TestMatrix[0][3] == 0.0 && TestMatrix[0][4] == 0.0;
    }
  }

  lemma TestSecondGroup()
    ensures IsSquare(TestMatrix) && IsGroupOf(TestMatrix, 0.95, [[0, 1, 2], [3, 4]], 1)
  {
    var gs: seq<seq<nat>> := [[0, 1, 2], [3, 4]];
    assert gs[..1] == [[0, 1, 2]];
    assert Claimed(gs[..1]) == {0, 1, 2} by {
      assert gs[..1][..0] == [];
    }
  }

  lemma TestMatrixGroups()
    ensures IsSquare(TestMatrix) && GreedyGrouping(TestMatrix, 0.95, [[0, 1, 2], [3, 4]])
  {
    var gs: seq<seq<nat>> := [[0, 1, 2], [3, 4]];
    TestFirstGroup();
    TestSecondGroup();
    assert gs[..1][..0] == [] && gs[..1] == [[0, 1, 2]];
    assert Claimed(gs) == {0, 1, 2, 3, 4};
  }

  /** At threshold 0.95 the test's items fall into groups of three and two. */
  lemma TestExample(gs: seq<seq<nat>>)
    requires IsSquare(TestMatrix) && GreedyGrouping(TestMatrix, 0.95, gs)
    ensures gs == [[0, 1, 2], [3, 4]]
    ensures |gs[0]| == 3 && |gs[1]| == 2
  {
    TestMatrixGroups();
    Unique(TestMatrix, 0.95, gs, [[0, 1, 2], [3, 4]]);
  }

  /**
   * Item 1 is similar to both others, which are not similar to each other.
   * The matrix is positive definite (its leading minors are 1, 0.2775 and
   * 0.0275), so three unit embedding vectors have exactly these cosine
   * similarities.
   */
  const ChainMatrix: seq<seq<real>> := [
    [1.0, 0.85, 0.5],
    [0.85, 1.0, 0.85],
    [0.5, 0.85, 1.0]
  ]

  lemma ChainFirstGroup()
    ensures IsSquare(ChainMatrix) && IsGroupOf(ChainMatrix, 0.8, [[0, 1], [2]], 0)
  {
    var gs: seq<seq<nat>> := [[0, 1], [2]];
    assert gs[..0] == [];
    forall j | Joins(ChainMatrix, 0.8, 0, j, {})
      ensures j in gs[0]
    {
      assert ChainMatrix[0][2] == 0.5;
    }
  }

  lemma ChainSecondGroup()
    ensures IsSquare(ChainMatrix) && IsGroupOf(ChainMatrix, 0.8, [[0, 1], [2]], 1)
  {
    var gs: seq<seq<nat>> := [[0, 1], [2]];
    assert gs[..1] == [[0, 1]];
    assert Claimed(gs[..1]) == {0, 1} by {
      assert gs[..1][..0] == [];
    }
  }

  lemma ChainGroups()
    ensures IsSquare(ChainMatrix) && GreedyGrouping(ChainMatrix, 0.8, [[0, 1], [2]])
  {
    var gs: seq<seq<nat>> := [[0, 1], [2]];
    ChainFirstGroup();
    ChainSecondGroup();
    assert gs[..1][..0] == [] && gs[..1] == [[0, 1]];
    assert Claimed(gs) == {0, 1, 2};
  }

  /**
   * Grouping is not transitive: item 2 is similar to item 1 yet ends in a
   * group of its own, because item 1 was claimed by item 0's group first.
   */
  lemma ChainNotTransitive(gs: seq<seq<nat>>)
    requires IsSquare(ChainMatrix) && GreedyGrouping(ChainMatrix, 0.8, gs)
    ensures ChainMatrix[1][2] > 0.8
    ensures gs == [[0, 1], [2]]
  {
    ChainGroups();
    Unique(ChainMatrix, 0.8, gs, [[0, 1], [2]]);
  }
}
