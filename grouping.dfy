/**
 * The greedy duplicate grouper. It walks the ordered path list; every index
 * that is not already inside a committed group becomes a seed, and its
 * candidate group is the seed followed by every later index whose basename
 * scores at least the threshold against the seed's basename. Candidate groups
 * with more than one member are committed under consecutive ids from 0.
 *
 * The similarity score is an edit-distance ratio from a foreign library; here
 * it is a parameter, any function from two names to a score in [0, 100].
 */
module Grouping {
  import opened Paths

  type Score = x: int | 0 <= x <= 100

  /** The similarity ratio of two file names. */
  type Ratio = (string, string) -> Score

  /** The threshold the scan uses. */
  const DefaultThreshold: int := 90

  /** Whether the basename of file `j` reaches the threshold against that of seed `i`. */
  predicate Similar(files: seq<string>, ratio: Ratio, threshold: int, i: nat, j: nat)
    requires i < |files| && j < |files|
  {
    ratio(Basename(files[i]), Basename(files[j])) >= threshold
  }

  /** The indices strictly between `i` and `hi` similar to seed `i`, in increasing order. */
  function Matches(files: seq<string>, ratio: Ratio, threshold: int, i: nat, hi: nat): seq<nat>
    requires i < |files| && hi <= |files|
    decreases hi
  {
    if hi <= i + 1 then []
    else
      Matches(files, ratio, threshold, i, hi - 1)
      + (if Similar(files, ratio, threshold, i, hi - 1) then [hi - 1] else [])
  }

  /** The candidate group of seed `i`: the seed, then every later similar index. */
  function Candidate(files: seq<string>, ratio: Ratio, threshold: int, i: nat): seq<nat>
    requires i < |files|
  {
    [i] + Matches(files, ratio, threshold, i, |files|)
  }

  /** Whether `i` is a member of one of the groups `gs`. */
  predicate Grouped(i: nat, gs: seq<seq<nat>>)
  {
    exists id :: 0 <= id < |gs| && i in gs[id]
  }

  /** The groups committed after the first `k` indices were processed, in commit order. */
  function GroupsUpTo(files: seq<string>, ratio: Ratio, threshold: int, k: nat): seq<seq<nat>>
    requires k <= |files|
  {
    if k == 0 then []
    else
      var gs := GroupsUpTo(files, ratio, threshold, k - 1);
      if Grouped(k - 1, gs) then gs
      else
        var g := Candidate(files, ratio, threshold, k - 1);
        if |g| > 1 then gs + [g] else gs
  }

  /** All committed groups, in commit order. */
  function Groups(files: seq<string>, ratio: Ratio, threshold: int): seq<seq<nat>>
  {
    GroupsUpTo(files, ratio, threshold, |files|)
  }

  /** The group dictionary: group `id` is the `id`-th committed group. */
  function GroupMap(gs: seq<seq<nat>>): map<nat, seq<nat>>
  {
    map id | 0 <= id < |gs| :: gs[id]
  }

  /** Seed `i`'s matches below `hi`: exactly the similar indices in (i, hi), strictly increasing. */
  lemma {:induction false} MatchesExact(files: seq<string>, ratio: Ratio, threshold: int, i: nat, hi: nat)
    requires i < |files| && hi <= |files|
    ensures var m := Matches(files, ratio, threshold, i, hi);
      && (forall k :: 0 <= k < |m| ==> i < m[k] < hi)
      && (forall a, b :: 0 <= a < b < |m| ==> m[a] < m[b])
      && (forall j :: j in m <==> i < j < hi && Similar(files, ratio, threshold, i, j))
  {
    if hi > i + 1 {
      MatchesExact(files, ratio, threshold, i, hi - 1);
    }
  }

  /** The search for the current index among the values of the group dictionary. */
  method AlreadyGrouped(similar: map<nat, seq<nat>>, i: nat) returns (found: bool)
    ensures found <==> exists id :: id in similar && i in similar[id]
  {
    var pending := similar.Keys;
    while pending != {}
      invariant pending <= similar.Keys
      invariant forall id :: id in similar && id !in pending ==> i !in similar[id]
      decreases pending
    {
      var id :| id in pending;
      if i in similar[id] {
        return true;
      }
      pending := pending - {id};
    }
    return false;
  }

  /** Looking a value up in the dictionary of groups is looking it up in the groups. */
  lemma GroupedInMap(gs: seq<seq<nat>>, i: nat)
    ensures (exists id :: id in GroupMap(gs) && i in GroupMap(gs)[id]) <==> Grouped(i, gs)
  {
    var m := GroupMap(gs);
    if exists id :: id in m && i in m[id] {
      var id :| id in m && i in m[id];
      assert 0 <= id < |gs| && i in gs[id];
    }
    if Grouped(i, gs) {
      var id :| 0 <= id < |gs| && i in gs[id];
      assert id in m && i in m[id];
    }
  }

  /** The grouper's inner loop: seed `i` and every later index similar to it. */
  method CollectGroup(files: seq<string>, ratio: Ratio, threshold: int, i: nat) returns (group: seq<nat>)
    requires i < |files|
    ensures group == Candidate(files, ratio, threshold, i)
  {
    group := [i];
    for j := i + 1 to |files|
      invariant group == [i] + Matches(files, ratio, threshold, i, j)
    {
      if ratio(Basename(files[i]), Basename(files[j])) >= threshold {
        group := group + [j];
      }
    }
  }

  /** The grouper's outer loop: its result is the dictionary of the committed groups. */
  method FindSimilarFiles(files: seq<string>, ratio: Ratio, threshold: int)
    returns (similar: map<nat, seq<nat>>)
    ensures similar == SimilarFiles(files, ratio, threshold)
  {
    similar := map[];
    var groupId: nat := 0;
    for i := 0 to |files|
      invariant groupId == |GroupsUpTo(files, ratio, threshold, i)|
      invariant similar == GroupMap(GroupsUpTo(files, ratio, threshold, i))
    {
      ghost var gs := GroupsUpTo(files, ratio, threshold, i);
      var seen := AlreadyGrouped(similar, i);
      GroupedInMap(gs, i);
      if seen {
        continue;
      }
      var group := CollectGroup(files, ratio, threshold, i);
      if |group| > 1 {
        similar := similar[groupId := group];
        groupId := groupId + 1;
        assert GroupsUpTo(files, ratio, threshold, i + 1) == gs + [group];
      }
    }
  }

  /** The shape every committed group has, and how the groups relate, after `k` indices. */
  ghost predicate WellGrouped(files: seq<string>, ratio: Ratio, threshold: int, k: nat, gs: seq<seq<nat>>)
    requires k <= |files|
  {
    && (forall id :: 0 <= id < |gs| ==>
          |gs[id]| >= 2 && gs[id][0] < k && gs[id] == Candidate(files, ratio, threshold, gs[id][0]))
    && (forall a, b :: 0 <= a < b < |gs| ==> gs[a][0] < gs[b][0] && gs[b][0] !in gs[a])
  }

  lemma {:induction false} GroupsUpToWellGrouped(files: seq<string>, ratio: Ratio, threshold: int, k: nat)
    requires k <= |files|
    ensures WellGrouped(files, ratio, threshold, k, GroupsUpTo(files, ratio, threshold, k))
  {
    if k > 0 {
      GroupsUpToWellGrouped(files, ratio, threshold, k - 1);
    }
  }

  /** Processing more indices only appends groups; the groups appended have seeds at least `k1`. */
  lemma {:induction false} GroupsUpToExtends(files: seq<string>, ratio: Ratio, threshold: int, k1: nat, k2: nat)
    requires k1 <= k2 <= |files|
    ensures var gs1, gs2 := GroupsUpTo(files, ratio, threshold, k1), GroupsUpTo(files, ratio, threshold, k2);
      && |gs1| <= |gs2| && gs2[..|gs1|] == gs1
      && (forall id :: |gs1| <= id < |gs2| ==> |gs2[id]| > 0 && gs2[id][0] >= k1)
  {
    if k1 < k2 {
      GroupsUpToExtends(files, ratio, threshold, k1, k2 - 1);
      var gs1, gs := GroupsUpTo(files, ratio, threshold, k1), GroupsUpTo(files, ratio, threshold, k2 - 1);
      var gs2 := GroupsUpTo(files, ratio, threshold, k2);
      if gs2 != gs {
        assert gs2 == gs + [Candidate(files, ratio, threshold, k2 - 1)];
        assert gs2[..|gs1|] == gs[..|gs1|];
      }
    }
  }

  /** The committed groups, as the grouper's dictionary. */
  function SimilarFiles(files: seq<string>, ratio: Ratio, threshold: int): map<nat, seq<nat>>
  {
    GroupMap(Groups(files, ratio, threshold))
  }

  /** Every group of a dictionary has two or more members. */
  predicate NoSingletons(r: map<nat, seq<nat>>)
  {
    forall id :: id in r ==> |r[id]| >= 2
  }

  lemma GroupsWellGrouped(files: seq<string>, ratio: Ratio, threshold: int)
    ensures WellGrouped(files, ratio, threshold, |files|, Groups(files, ratio, threshold))
  {
    GroupsUpToWellGrouped(files, ratio, threshold, |files|);
  }

  /** No singleton group is ever emitted. */
  lemma EveryGroupHasTwoMembers(files: seq<string>, ratio: Ratio, threshold: int)
    ensures NoSingletons(SimilarFiles(files, ratio, threshold))
  {
    GroupsWellGrouped(files, ratio, threshold);
  }

  /** Group ids are 0, 1, ... with no gap, and a larger id means a larger seed. */
  lemma GroupIdsFollowSeeds(files: seq<string>, ratio: Ratio, threshold: int)
    ensures NoSingletons(SimilarFiles(files, ratio, threshold))
    ensures var r := SimilarFiles(files, ratio, threshold);
      && (forall id, id' :: id in r && 0 <= id' < id ==> id' in r)
      && (forall a, b :: a in r && b in r && a < b ==> r[a][0] < r[b][0])
  {
    GroupsWellGrouped(files, ratio, threshold);
  }

  /**
   * Each group is its seed followed by strictly increasing later indices of
   * the path list, and an index belongs to it iff it is the seed or a later
   * index similar to the seed. Members are compared with the seed only.
   */
  lemma GroupIsSeedAndItsMatches(files: seq<string>, ratio: Ratio, threshold: int)
    ensures NoSingletons(SimilarFiles(files, ratio, threshold))
    ensures var r := SimilarFiles(files, ratio, threshold);
      forall id :: id in r ==>
        var g := r[id];
        && g[0] < |files|
        && (forall k :: 0 < k < |g| ==> g[0] < g[k] < |files|)
        && (forall a, b :: 0 <= a < b < |g| ==> g[a] < g[b])
        && (forall j :: j in g <==> j == g[0] || (g[0] < j < |files| && Similar(files, ratio, threshold, g[0], j)))
  {
    GroupsWellGrouped(files, ratio, threshold);
    var r := SimilarFiles(files, ratio, threshold);
    forall id | id in r
      ensures var g := r[id];
        && g[0] < |files|
        && (forall k :: 0 < k < |g| ==> g[0] < g[k] < |files|)
        && (forall a, b :: 0 <= a < b < |g| ==> g[a] < g[b])
        && (forall j :: j in g <==> j == g[0] || (g[0] < j < |files| && Similar(files, ratio, threshold, g[0], j)))
    {
      var g := r[id];
      var m := Matches(files, ratio, threshold, g[0], |files|);
      MatchesExact(files, ratio, threshold, g[0], |files|);
      assert g == [g[0]] + m;
      forall k | 0 < k < |g| ensures g[0] < g[k] < |files| {
        assert g[k] == m[k - 1];
      }
      forall a, b | 0 <= a < b < |g| ensures g[a] < g[b] {
        if a > 0 {
          assert g[a] == m[a - 1] && g[b] == m[b - 1];
        } else {
          assert g[b] == m[b - 1];
        }
      }
    }
  }

  /** A seed is never a member of an earlier group; non-seed members may be, so groups can overlap. */
  lemma SeedNotInEarlierGroup(files: seq<string>, ratio: Ratio, threshold: int)
    ensures NoSingletons(SimilarFiles(files, ratio, threshold))
    ensures var r := SimilarFiles(files, ratio, threshold);
      forall a, b :: a in r && b in r && a < b ==> r[b][0] !in r[a]
  {
    GroupsWellGrouped(files, ratio, threshold);
  }

  /** Seed `i` has a later similar index iff its candidate group has more than one member. */
  lemma HasMatchIffCandidateCommits(files: seq<string>, ratio: Ratio, threshold: int, i: nat)
    requires i < |files|
    ensures (exists j :: i < j < |files| && Similar(files, ratio, threshold, i, j))
            <==> |Candidate(files, ratio, threshold, i)| > 1
  {
    var n := |files|;
    MatchesExact(files, ratio, threshold, i, n);
    if exists j :: i < j < n && Similar(files, ratio, threshold, i, j) {
      var j :| i < j < n && Similar(files, ratio, threshold, i, j);
      assert j in Matches(files, ratio, threshold, i, n);
    }
    if |Candidate(files, ratio, threshold, i)| > 1 {
      var j := Matches(files, ratio, threshold, i, n)[0];
      assert i < j < n && Similar(files, ratio, threshold, i, j);
    }
  }

  /** In the final list, the groups with a seed below `i` are exactly those committed before `i`. */
  lemma EarlierSeedsCommittedBefore(files: seq<string>, ratio: Ratio, threshold: int, i: nat)
    requires i <= |files|
    ensures var gs, before := Groups(files, ratio, threshold), GroupsUpTo(files, ratio, threshold, i);
      && |before| <= |gs| && gs[..|before|] == before
      && (forall id :: 0 <= id < |gs| ==> |gs[id]| > 0 && (gs[id][0] < i <==> id < |before|))
  {
    var gs, before := Groups(files, ratio, threshold), GroupsUpTo(files, ratio, threshold, i);
    GroupsUpToExtends(files, ratio, threshold, i, |files|);
    GroupsUpToWellGrouped(files, ratio, threshold, i);
    GroupsWellGrouped(files, ratio, threshold);
    forall id | 0 <= id < |before| ensures gs[id] == before[id] {
      assert gs[..|before|][id] == gs[id];
    }
  }

  /** `i` is in a group with a smaller seed iff it was grouped when the loop reached it. */
  lemma GroupedBeforeIff(files: seq<string>, ratio: Ratio, threshold: int, i: nat)
    requires i <= |files|
    ensures NoSingletons(SimilarFiles(files, ratio, threshold))
    ensures var r := SimilarFiles(files, ratio, threshold);
      Grouped(i, GroupsUpTo(files, ratio, threshold, i)) <==> (exists id :: id in r && r[id][0] < i && i in r[id])
  {
    var gs, before := Groups(files, ratio, threshold), GroupsUpTo(files, ratio, threshold, i);
    var r := SimilarFiles(files, ratio, threshold);
    EarlierSeedsCommittedBefore(files, ratio, threshold, i);
    GroupsWellGrouped(files, ratio, threshold);
    if Grouped(i, before) {
      var id :| 0 <= id < |before| && i in before[id];
      assert gs[..|before|][id] == gs[id];
      assert id in r && r[id][0] < i && i in r[id];
    }
    if exists id :: id in r && r[id][0] < i && i in r[id] {
      var id :| id in r && r[id][0] < i && i in r[id];
      assert gs[..|before|][id] == gs[id];
    }
  }

  /**
   * Which indices open a group: exactly those that have a later similar index
   * and are not a member of a group with a smaller seed.
   */
  lemma SeedsAreUngroupedIndicesWithAMatch(files: seq<string>, ratio: Ratio, threshold: int, i: nat)
    requires i < |files|
    ensures NoSingletons(SimilarFiles(files, ratio, threshold))
    ensures var r := SimilarFiles(files, ratio, threshold);
      (exists id :: id in r && r[id][0] == i) <==>
        && (exists j :: i < j < |files| && Similar(files, ratio, threshold, i, j))
        && !(exists id :: id in r && r[id][0] < i && i in r[id])
  {
    var gs := Groups(files, ratio, threshold);
    var r := SimilarFiles(files, ratio, threshold);
    var before := GroupsUpTo(files, ratio, threshold, i);
    var after := GroupsUpTo(files, ratio, threshold, i + 1);
    HasMatchIffCandidateCommits(files, ratio, threshold, i);
    GroupedBeforeIff(files, ratio, threshold, i);
    EarlierSeedsCommittedBefore(files, ratio, threshold, i);
    EarlierSeedsCommittedBefore(files, ratio, threshold, i + 1);
    if after == before {
      forall id | id in r ensures r[id][0] != i {
        assert gs[id][0] < i || gs[id][0] >= i + 1;
      }
    } else {
      assert after == before + [Candidate(files, ratio, threshold, i)];
      assert gs[..|after|][|before|] == gs[|before|];
      assert |before| in r && r[|before|][0] == i;
    }
  }

  /** Without a later similar index, a seed has no matches. */
  lemma {:induction false} NoMatchesWithoutSimilar(files: seq<string>, ratio: Ratio, threshold: int, i: nat, hi: nat)
    requires i < |files| && hi <= |files|
    requires forall j :: i < j < hi ==> !Similar(files, ratio, threshold, i, j)
    ensures Matches(files, ratio, threshold, i, hi) == []
  {
    if hi > i + 1 {
      NoMatchesWithoutSimilar(files, ratio, threshold, i, hi - 1);
    }
  }

  lemma {:induction false} NoSimilarPairNoGroupsUpTo(files: seq<string>, ratio: Ratio, threshold: int, k: nat)
    requires k <= |files|
    requires forall i, j :: 0 <= i < j < |files| ==> !Similar(files, ratio, threshold, i, j)
    ensures GroupsUpTo(files, ratio, threshold, k) == []
  {
    if k > 0 {
      NoSimilarPairNoGroupsUpTo(files, ratio, threshold, k - 1);
      NoMatchesWithoutSimilar(files, ratio, threshold, k - 1, |files|);
    }
  }

  /** With no similar pair at all, the grouper returns an empty dictionary. */
  lemma NoSimilarPairNoGroups(files: seq<string>, ratio: Ratio, threshold: int)
    requires forall i, j :: 0 <= i < j < |files| ==> !Similar(files, ratio, threshold, i, j)
    ensures SimilarFiles(files, ratio, threshold) == map[]
  {
    NoSimilarPairNoGroupsUpTo(files, ratio, threshold, |files|);
  }

  /** A ratio under which "c" is alike to every other name and no two other names are alike. */
  function HubRatio(x: string, y: string): Score
  {
    if (x == "c") != (y == "c") then 100 else 0
  }

  lemma OverlappingGroupList()
    ensures Groups(["a", "b", "c"], HubRatio, DefaultThreshold) == [[0, 2], [1, 2]]
  {
    var files := ["a", "b", "c"];
    assert Basename("a") == "a" && Basename("b") == "b" && Basename("c") == "c";
    assert Matches(files, HubRatio, DefaultThreshold, 0, 1) == [];
    assert Matches(files, HubRatio, DefaultThreshold, 0, 2) == [];
    assert Matches(files, HubRatio, DefaultThreshold, 0, 3) == [2];
    assert Matches(files, HubRatio, DefaultThreshold, 1, 2) == [];
    assert Matches(files, HubRatio, DefaultThreshold, 1, 3) == [2];
    assert Candidate(files, HubRatio, DefaultThreshold, 0) == [0, 2];
    assert !Grouped(0, GroupsUpTo(files, HubRatio, DefaultThreshold, 0));
    assert GroupsUpTo(files, HubRatio, DefaultThreshold, 1) == [[0, 2]];
    assert !Grouped(1, [[0, 2]]);
    assert Candidate(files, HubRatio, DefaultThreshold, 1) == [1, 2];
    assert GroupsUpTo(files, HubRatio, DefaultThreshold, 2) == [[0, 2], [1, 2]];
    assert Grouped(2, [[0, 2], [1, 2]]) by { assert 2 in [[0, 2], [1, 2]][0]; }
  }

  /**
   * Groups can overlap: with "c" similar to "a" and to "b" but "a" not similar
   * to "b", index 2 is a member of both groups.
   */
  lemma OverlappingGroups()
    ensures SimilarFiles(["a", "b", "c"], HubRatio, DefaultThreshold) == map[0 := [0, 2], 1 := [1, 2]]
  {
    OverlappingGroupList();
  }

  lemma ReorderedGroupList()
    ensures Groups(["c", "a", "b"], HubRatio, DefaultThreshold) == [[0, 1, 2]]
  {
    var files := ["c", "a", "b"];
    assert Basename("a") == "a" && Basename("b") == "b" && Basename("c") == "c";
    assert Matches(files, HubRatio, DefaultThreshold, 0, 1) == [];
    assert Matches(files, HubRatio, DefaultThreshold, 0, 2) == [1];
    assert Matches(files, HubRatio, DefaultThreshold, 0, 3) == [1, 2];
    assert Candidate(files, HubRatio, DefaultThreshold, 0) == [0, 1, 2];
    assert !Grouped(0, GroupsUpTo(files, HubRatio, DefaultThreshold, 0));
    assert GroupsUpTo(files, HubRatio, DefaultThreshold, 1) == [[0, 1, 2]];
    assert Grouped(1, [[0, 1, 2]]) by { assert 1 in [[0, 1, 2]][0]; }
    assert GroupsUpTo(files, HubRatio, DefaultThreshold, 2) == [[0, 1, 2]];
    assert Grouped(2, [[0, 1, 2]]) by { assert 2 in [[0, 1, 2]][0]; }
  }

  /** The order of the path list decides which groups form: moving "c" first makes one group of all three. */
  lemma ReorderingChangesGroups()
    ensures SimilarFiles(["c", "a", "b"], HubRatio, DefaultThreshold) == map[0 := [0, 1, 2]]
  {
    ReorderedGroupList();
  }

  /**
   * Two copies of a song and an unrelated file: whenever the ratio puts the
   * copies' names at or above 90 and the first copy's name and the other name
   * below, one group of the two copies forms. These scores are the scenario's
   * assumption, not values of the library's ratio. The second copy is never
   * compared with the other file: it is already grouped when the loop reaches it.
   */
  lemma CopiesOfOneSong(ratio: Ratio)
    requires ratio("Song.mp3", "Song (1).mp3") >= DefaultThreshold
    requires ratio("Song.mp3", "Other.flac") < DefaultThreshold
    ensures SimilarFiles(["a/Song.mp3", "a/Song (1).mp3", "a/Other.flac"], ratio, DefaultThreshold) == map[0 := [0, 1]]
  {
    var files := ["a/Song.mp3", "a/Song (1).mp3", "a/Other.flac"];
    assert files[0] == "a" + ['/'] + "Song.mp3";
    assert files[1] == "a" + ['/'] + "Song (1).mp3";
    assert files[2] == "a" + ['/'] + "Other.flac";
    AfterLastOfAppend("a", '/', "Song.mp3");
    AfterLastOfAppend("a", '/', "Song (1).mp3");
    AfterLastOfAppend("a", '/', "Other.flac");
    assert Matches(files, ratio, DefaultThreshold, 0, 1) == [];
    assert Matches(files, ratio, DefaultThreshold, 0, 2) == [1];
    assert Matches(files, ratio, DefaultThreshold, 0, 3) == [1];
    assert Matches(files, ratio, DefaultThreshold, 2, 3) == [];
    assert Candidate(files, ratio, DefaultThreshold, 0) == [0, 1];
    assert !Grouped(0, GroupsUpTo(files, ratio, DefaultThreshold, 0));
    assert GroupsUpTo(files, ratio, DefaultThreshold, 1) == [[0, 1]];
    assert Grouped(1, [[0, 1]]) by { assert 1 in [[0, 1]][0]; }
    assert GroupsUpTo(files, ratio, DefaultThreshold, 2) == [[0, 1]];
    assert GroupsUpTo(files, ratio, DefaultThreshold, 3) == [[0, 1]];
  }
}
