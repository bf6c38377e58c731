/**
 * The library de-duplication scan (`scanLibrary`): resources are ordered by title length,
 * longest first, and each resource not yet placed anchors a group of the later resources
 * whose titles (and, when both are known, authors) are similar to its own.
 */
module Cluster {

  import opened Types
  import opened Seqs
  import opened StringSimilarity
  import Text

  // ---------------------------------------------------------------------------------------
  // The ordering `[...library].sort((a, b) => b.title.length - a.title.length)`.
  // The comparator sort is stable, so resources with equally long titles keep their order.

  /** `title.length`: the title's number of UTF-16 code units. */
  function TitleLength(x: LibraryResource): nat
  {
    Text.Utf16Length(x.title)
  }

  ghost predicate SortedByTitleLength(s: seq<LibraryResource>)
  {
    forall p, q :: 0 <= p < q < |s| ==> TitleLength(s[p]) >= TitleLength(s[q])
  }

  /** Inserts `x` after every leading resource whose title is at least as long. */
  function InsertByTitleLength(s: seq<LibraryResource>, x: LibraryResource): (r: seq<LibraryResource>)
    ensures multiset(r) == multiset(s) + multiset{x}
  {
    if s == [] then [x]
    else if TitleLength(s[0]) >= TitleLength(x) then
      assert s == [s[0]] + s[1..];
      [s[0]] + InsertByTitleLength(s[1..], x)
    else [x] + s
  }

  function SortByTitleLength(xs: seq<LibraryResource>): (r: seq<LibraryResource>)
    ensures multiset(r) == multiset(xs)
  {
    if xs == [] then []
    else
      assert xs == xs[..|xs| - 1] + [xs[|xs| - 1]];
      InsertByTitleLength(SortByTitleLength(xs[..|xs| - 1]), xs[|xs| - 1])
  }

  /** Inserting keeps every title within a bound that all the titles already respect. */
  lemma InsertBounded(s: seq<LibraryResource>, x: LibraryResource, n: nat)
    requires forall y :: y in s ==> TitleLength(y) <= n
    requires TitleLength(x) <= n
    ensures forall y :: y in InsertByTitleLength(s, x) ==> TitleLength(y) <= n
  {
    var r := InsertByTitleLength(s, x);
    forall y | y in r ensures TitleLength(y) <= n {
      assert y in multiset(r);
    }
  }

  /** The tail of a sorted sequence is sorted, and no title in it is longer than the head's. */
  lemma SortedTail(s: seq<LibraryResource>)
    requires s != [] && SortedByTitleLength(s)
    ensures SortedByTitleLength(s[1..])
    ensures forall y :: y in s[1..] ==> TitleLength(y) <= TitleLength(s[0])
  {
    var tail := s[1..];
    forall p, q | 0 <= p < q < |tail| ensures TitleLength(tail[p]) >= TitleLength(tail[q]) {
      assert tail[p] == s[p + 1] && tail[q] == s[q + 1];
    }
    forall y | y in tail ensures TitleLength(y) <= TitleLength(s[0]) {
      var j :| 0 <= j < |tail| && tail[j] == y;
      assert s[j + 1] == y;
    }
  }

  /** A sorted sequence stays sorted under a head whose title is at least as long as all. */
  lemma SortedCons(x: LibraryResource, s: seq<LibraryResource>)
    requires SortedByTitleLength(s)
    requires forall y :: y in s ==> TitleLength(y) <= TitleLength(x)
    ensures SortedByTitleLength([x] + s)
  {
    var r := [x] + s;
    forall p, q | 0 <= p < q < |r| ensures TitleLength(r[p]) >= TitleLength(r[q]) {
      assert r[q] == s[q - 1];
      if p == 0 {
        assert s[q - 1] in s;
      } else {
        assert r[p] == s[p - 1];
      }
    }
  }

  lemma {:induction false} InsertSorted(s: seq<LibraryResource>, x: LibraryResource)
    requires SortedByTitleLength(s)
    ensures SortedByTitleLength(InsertByTitleLength(s, x))
  {
    if s == [] {
    } else if TitleLength(s[0]) >= TitleLength(x) {
      SortedTail(s);
      InsertSorted(s[1..], x);
      InsertBounded(s[1..], x, TitleLength(s[0]));
      SortedCons(s[0], InsertByTitleLength(s[1..], x));
    } else {
      forall y | y in s ensures TitleLength(y) <= TitleLength(x) {
        var j :| 0 <= j < |s| && s[j] == y;
      }
      SortedCons(x, s);
    }
  }

  /** The ordering puts longer titles first. */
  lemma {:induction false} SortSorted(xs: seq<LibraryResource>)
    ensures SortedByTitleLength(SortByTitleLength(xs))
  {
    if xs != [] {
      SortSorted(xs[..|xs| - 1]);
      InsertSorted(SortByTitleLength(xs[..|xs| - 1]), xs[|xs| - 1]);
    }
  }

  function LengthIs(k: nat): LibraryResource -> bool
  {
    (x: LibraryResource) => TitleLength(x) == k
  }

  lemma FilterNone(s: seq<LibraryResource>, k: nat)
    requires forall y :: y in s ==> TitleLength(y) != k
    ensures Filter(s, LengthIs(k)) == []
  {
  }

  lemma {:induction false} InsertStable(s: seq<LibraryResource>, x: LibraryResource, k: nat)
    requires SortedByTitleLength(s)
    ensures Filter(InsertByTitleLength(s, x), LengthIs(k))
            == Filter(s, LengthIs(k)) + (if LengthIs(k)(x) then [x] else [])
  {
    if s == [] {
    } else if TitleLength(s[0]) >= TitleLength(x) {
      InsertStable(s[1..], x, k);
      ConsTail(s[0], InsertByTitleLength(s[1..], x));
    } else {
      ConsTail(x, s);
      if TitleLength(x) == k {
        FilterNone(s, k);
      }
    }
  }

  /** Stability: the resources with titles of any one length appear in their library order. */
  lemma {:induction false} SortStable(xs: seq<LibraryResource>, k: nat)
    ensures Filter(SortByTitleLength(xs), LengthIs(k)) == Filter(xs, LengthIs(k))
  {
    if xs != [] {
      var pre, last := xs[..|xs| - 1], xs[|xs| - 1];
      SortStable(pre, k);
      SortSorted(pre);
      InsertStable(SortByTitleLength(pre), last, k);
      FilterSnoc(pre, last, LengthIs(k));
      LastSplit(xs);
    }
  }

  /** No two entries share an id. */
  ghost predicate IdsDistinct(s: seq<LibraryResource>)
  {
    forall p, q :: 0 <= p < q < |s| ==> s[p].id != s[q].id
  }

  lemma InsertMembers(s: seq<LibraryResource>, x: LibraryResource)
    ensures forall y :: y in InsertByTitleLength(s, x) <==> y in s || y == x
  {
    var r := InsertByTitleLength(s, x);
    forall y
      ensures y in r <==> y in s || y == x
    {
      assert y in r <==> y in multiset(r);
      assert y in s <==> y in multiset(s);
    }
  }

  lemma {:induction false} InsertIdsDistinct(s: seq<LibraryResource>, x: LibraryResource)
    requires IdsDistinct(s) && forall y :: y in s ==> y.id != x.id
    ensures IdsDistinct(InsertByTitleLength(s, x))
  {
    if s != [] && TitleLength(s[0]) >= TitleLength(x) {
      var rest := InsertByTitleLength(s[1..], x);
      InsertIdsDistinct(s[1..], x);
      InsertMembers(s[1..], x);
      var r := [s[0]] + rest;
      forall p, q | 0 <= p < q < |r|
        ensures r[p].id != r[q].id
      {
        if p == 0 {
          assert r[q] in rest;
          if r[q] != x {
            var k :| 0 <= k < |s[1..]| && s[1..][k] == r[q];
            assert s[k + 1] == r[q];
          }
        } else {
          assert r[p] == rest[p - 1] && r[q] == rest[q - 1];
        }
      }
    } else if s != [] {
      var r := [x] + s;
      forall p, q | 0 <= p < q < |r|
        ensures r[p].id != r[q].id
      {
        assert r[q] == s[q - 1];
        if p == 0 {
          assert r[q] in s;
        }
      }
    }
  }

  /** The ordering does not introduce shared ids. */
  lemma {:induction false} SortIdsDistinct(xs: seq<LibraryResource>)
    requires IdsDistinct(xs)
    ensures IdsDistinct(SortByTitleLength(xs))
  {
    if xs != [] {
      var pre, last := xs[..|xs| - 1], xs[|xs| - 1];
      SortIdsDistinct(pre);
      var sp := SortByTitleLength(pre);
      forall y | y in sp
        ensures y.id != last.id
      {
        assert y in multiset(pre);
      }
      InsertIdsDistinct(sp, last);
    }
  }

  // ---------------------------------------------------------------------------------------
  // Grouping

  /** Resource `x` joins the group anchored at `anchor`: the titles are more than 70% similar
      and, when both authors are given, the authors are at least 50% similar. */
  predicate Matches(anchor: LibraryResource, x: LibraryResource)
  {
    Above07(Similarity(anchor.title, x.title))
    && !(anchor.author != [] && x.author != [] && Below05(Similarity(anchor.author, x.author)))
  }

  lemma MatchesSymmetric(x: LibraryResource, y: LibraryResource)
    ensures Matches(x, y) == Matches(y, x)
  {
    SimilaritySymmetric(x.title, y.title);
    SimilaritySymmetric(x.author, y.author);
  }

  /** Ids of all resources placed in some group. */
  function GroupedIds(groups: seq<seq<LibraryResource>>): (r: set<string>)
    ensures forall g, k :: 0 <= g < |groups| && 0 <= k < |groups[g]| ==> groups[g][k].id in r
  {
    if groups == [] then {}
    else
      var last := groups[|groups| - 1];
      GroupedIds(groups[..|groups| - 1]) + LibraryIds(last)
  }

  lemma LibraryIdsPush(group: seq<LibraryResource>, x: LibraryResource)
    ensures LibraryIds(group + [x]) == LibraryIds(group) + {x.id}
  {
  }

  /** Appending a resource whose id is new keeps the ids of a group pairwise distinct. */
  lemma PushDistinctIds(group: seq<LibraryResource>, x: LibraryResource)
    requires forall k, l :: 0 <= k < l < |group| ==> group[k].id != group[l].id
    requires x.id !in LibraryIds(group)
    ensures forall k, l :: 0 <= k < l < |group + [x]| ==> (group + [x])[k].id != (group + [x])[l].id
  {
    var g := group + [x];
    forall k, l | 0 <= k < l < |g|
      ensures g[k].id != g[l].id
    {
      if l == |group| {
        assert g[k] in group;
      }
    }
  }

  /** The state of the inner loop after the entries `s[i+1..j]` were examined: the group is
      led by `s[i]`, its other members are later entries that pass the test, its ids are new
      and pairwise distinct, they are exactly what was added to `visited`, and every examined
      entry that passes the test is visited. */
  ghost predicate Collecting(s: seq<LibraryResource>, i: nat, j: nat, visited: set<string>,
                             group: seq<LibraryResource>, visited': set<string>,
                             joins: (LibraryResource, LibraryResource) -> bool)
  {
    i < j <= |s| && |group| >= 1 && group[0] == s[i]
    && (forall k :: 1 <= k < |group| ==> group[k] in s[i + 1..] && joins(s[i], group[k]))
    && (forall k :: 0 <= k < |group| ==> group[k].id !in visited)
    && (forall k, l :: 0 <= k < l < |group| ==> group[k].id != group[l].id)
    && visited' == visited + LibraryIds(group)
    && (forall q :: i < q < j && joins(s[i], s[q]) ==> s[q].id in visited')
  }

  lemma CollectPush(s: seq<LibraryResource>, i: nat, j: nat, visited: set<string>,
                    group: seq<LibraryResource>, visited': set<string>,
                    joins: (LibraryResource, LibraryResource) -> bool)
    requires Collecting(s, i, j, visited, group, visited', joins) && j < |s|
    requires s[j].id !in visited' && joins(s[i], s[j])
    ensures Collecting(s, i, j + 1, visited, group + [s[j]], visited' + {s[j].id}, joins)
  {
    LibraryIdsPush(group, s[j]);
    PushDistinctIds(group, s[j]);
    assert s[i + 1..][j - i - 1] == s[j];
  }

  lemma CollectSkip(s: seq<LibraryResource>, i: nat, j: nat, visited: set<string>,
                    group: seq<LibraryResource>, visited': set<string>,
                    joins: (LibraryResource, LibraryResource) -> bool)
    requires Collecting(s, i, j, visited, group, visited', joins) && j < |s|
    requires !(s[j].id !in visited' && joins(s[i], s[j]))
    ensures Collecting(s, i, j + 1, visited, group, visited', joins)
  {
  }

  /** The inner loop of the scan: collects the group anchored at `s[i]` from the later
      entries not yet visited that pass the pairwise test `joins`. */
  method CollectGroup(s: seq<LibraryResource>, i: nat, visited: set<string>,
                      joins: (LibraryResource, LibraryResource) -> bool)
    returns (group: seq<LibraryResource>, visited': set<string>)
    requires i < |s| && s[i].id !in visited
    ensures Collecting(s, i, |s|, visited, group, visited', joins)
  {
    group := [s[i]];
    visited' := visited + {s[i].id};
    var j := i + 1;
    assert LibraryIds(group) == {s[i].id};
    while j < |s|
      invariant Collecting(s, i, j, visited, group, visited', joins)
    {
      if s[j].id !in visited' && joins(s[i], s[j]) {
        CollectPush(s, i, j, visited, group, visited', joins);
        group := group + [s[j]];
        visited' := visited' + {s[j].id};
      } else {
        CollectSkip(s, i, j, visited, group, visited', joins);
      }
      j := j + 1;
    }
  }

  /** Every group has an anchor and at least one more member; each member passes the test
      against the anchor, comes from `s` and has a title no longer than the anchor's. */
  ghost predicate GroupsWellFormed(s: seq<LibraryResource>, groups: seq<seq<LibraryResource>>,
                                   joins: (LibraryResource, LibraryResource) -> bool)
  {
    (forall g :: 0 <= g < |groups| ==> |groups[g]| >= 2)
    && (forall g, k :: 0 <= g < |groups| && 1 <= k < |groups[g]| ==> joins(groups[g][0], groups[g][k]))
    && (forall g, k :: 0 <= g < |groups| && 0 <= k < |groups[g]| ==>
          groups[g][k] in s && TitleLength(groups[g][k]) <= TitleLength(groups[g][0]))
  }

  /** No resource id occurs twice across all groups. */
  ghost predicate GroupIdsUnique(groups: seq<seq<LibraryResource>>)
  {
    forall g1, k1, g2, k2 ::
      (0 <= g1 < |groups| && 0 <= k1 < |groups[g1]| && 0 <= g2 < |groups| && 0 <= k2 < |groups[g2]|
       && (g1 != g2 || k1 != k2)) ==> groups[g1][k1].id != groups[g2][k2].id
  }

  /** After the anchors `s[..i]` are processed, any two entries that pass the test, the
      first of them among those anchors, are not both left out of the groups. */
  ghost predicate NoMissedPair(s: seq<LibraryResource>, i: nat, groups: seq<seq<LibraryResource>>,
                               joins: (LibraryResource, LibraryResource) -> bool)
  {
    forall p, q :: 0 <= p < i && p < q < |s| && joins(s[p], s[q]) ==>
      s[p].id in GroupedIds(groups) || s[q].id in GroupedIds(groups)
  }

  lemma PushWellFormed(s: seq<LibraryResource>, i: nat, groups: seq<seq<LibraryResource>>,
                       group: seq<LibraryResource>, joins: (LibraryResource, LibraryResource) -> bool)
    requires SortedByTitleLength(s) && i < |s|
    requires GroupsWellFormed(s, groups, joins)
    requires |group| >= 2 && group[0] == s[i]
    requires forall k :: 1 <= k < |group| ==> group[k] in s[i + 1..] && joins(s[i], group[k])
    ensures GroupsWellFormed(s, groups + [group], joins)
  {
    var gs: seq<seq<LibraryResource>> := groups + [group];
    forall g, k | 0 <= g < |gs| && 0 <= k < |gs[g]|
      ensures gs[g][k] in s && TitleLength(gs[g][k]) <= TitleLength(gs[g][0])
    {
      if g == |groups| && k >= 1 {
        var q :| 0 <= q < |s[i + 1..]| && s[i + 1..][q] == group[k];
        assert s[i + 1 + q] == group[k];
      }
    }
  }

  lemma PushIdsUnique(groups: seq<seq<LibraryResource>>, group: seq<LibraryResource>, visited: set<string>)
    requires GroupIdsUnique(groups)
    requires forall g, k :: 0 <= g < |groups| && 0 <= k < |groups[g]| ==> groups[g][k].id in visited
    requires forall k :: 0 <= k < |group| ==> group[k].id !in visited
    requires forall k, l :: 0 <= k < l < |group| ==> group[k].id != group[l].id
    ensures GroupIdsUnique(groups + [group])
  {
    var gs: seq<seq<LibraryResource>> := groups + [group];
    forall g1, k1, g2, k2 |
      0 <= g1 < |gs| && 0 <= k1 < |gs[g1]| && 0 <= g2 < |gs| && 0 <= k2 < |gs[g2]| && (g1 != g2 || k1 != k2)
      ensures gs[g1][k1].id != gs[g2][k2].id
    {
      if g1 == |groups| && g2 == |groups| {
        if k1 > k2 {
          assert group[k2].id != group[k1].id;
        }
      } else if g1 == |groups| {
        assert gs[g2][k2].id in visited;
      } else if g2 == |groups| {
        assert gs[g1][k1].id in visited;
      }
    }
  }

  /** Every visited id belongs to a group or to an anchor already processed. */
  ghost predicate VisitedFrom(s: seq<LibraryResource>, i: nat, groups: seq<seq<LibraryResource>>, visited: set<string>)
    requires i <= |s|
  {
    forall x :: x in visited ==> x in GroupedIds(groups) || exists p :: 0 <= p < i && s[p].id == x
  }

  lemma GroupedIdsPush(groups: seq<seq<LibraryResource>>, group: seq<LibraryResource>)
    ensures GroupedIds(groups + [group]) == GroupedIds(groups) + LibraryIds(group)
  {
    assert (groups + [group])[..|groups|] == groups;
  }

  /** Processing anchor `s[i]` whose collected group is `group`. */
  lemma AnchorStep(s: seq<LibraryResource>, i: nat, groups: seq<seq<LibraryResource>>, group: seq<LibraryResource>,
                   visited: set<string>, visited': set<string>, joins: (LibraryResource, LibraryResource) -> bool)
    requires i < |s| && s[i].id !in visited
    requires Collecting(s, i, |s|, visited, group, visited', joins)
    requires VisitedFrom(s, i, groups, visited)
    requires IdsDistinct(s) ==> NoMissedPair(s, i, groups, joins)
    ensures var kept := if |group| > 1 then groups + [group] else groups;
            VisitedFrom(s, i + 1, kept, visited') && (IdsDistinct(s) ==> NoMissedPair(s, i + 1, kept, joins))
  {
    var kept := if |group| > 1 then groups + [group] else groups;
    GroupedIdsPush(groups, group);
    if |group| == 1 {
      assert LibraryIds(group) == {s[i].id};
    }
    assert GroupedIds(groups) <= GroupedIds(kept);
    forall x | x in visited'
      ensures x in GroupedIds(kept) || exists p :: 0 <= p < i + 1 && s[p].id == x
    {
      if x in visited {
        if x !in GroupedIds(groups) {
          var p :| 0 <= p < i && s[p].id == x;
        }
      } else if |group| == 1 {
        assert s[i].id == x;
      }
    }
    if IdsDistinct(s) {
      forall p, q | 0 <= p < i + 1 && p < q < |s| && joins(s[p], s[q])
        ensures s[p].id in GroupedIds(kept) || s[q].id in GroupedIds(kept)
      {
      }
    }
  }

  /** Skipping an entry whose id was already visited. */
  lemma SkipStep(s: seq<LibraryResource>, i: nat, groups: seq<seq<LibraryResource>>, visited: set<string>,
                 joins: (LibraryResource, LibraryResource) -> bool)
    requires i < |s| && s[i].id in visited
    requires VisitedFrom(s, i, groups, visited)
    requires IdsDistinct(s) ==> NoMissedPair(s, i, groups, joins)
    ensures VisitedFrom(s, i + 1, groups, visited)
    ensures IdsDistinct(s) ==> NoMissedPair(s, i + 1, groups, joins)
  {
  }

  /** The state of the outer loop after the anchors `s[..i]` were processed. */
  ghost predicate Scanning(s: seq<LibraryResource>, i: nat, groups: seq<seq<LibraryResource>>, visited: set<string>,
                           joins: (LibraryResource, LibraryResource) -> bool)
  {
    i <= |s|
    && GroupsWellFormed(s, groups, joins)
    && GroupIdsUnique(groups)
    && (forall g, k :: 0 <= g < |groups| && 0 <= k < |groups[g]| ==> groups[g][k].id in visited)
    && VisitedFrom(s, i, groups, visited)
    && (IdsDistinct(s) ==> NoMissedPair(s, i, groups, joins))
  }

  lemma ScanStart(s: seq<LibraryResource>, joins: (LibraryResource, LibraryResource) -> bool)
    ensures Scanning(s, 0, [], {}, joins)
  {
  }

  lemma ScanAnchor(s: seq<LibraryResource>, i: nat, groups: seq<seq<LibraryResource>>, group: seq<LibraryResource>,
                   visited: set<string>, visited': set<string>, joins: (LibraryResource, LibraryResource) -> bool)
    requires SortedByTitleLength(s) && Scanning(s, i, groups, visited, joins) && i < |s| && s[i].id !in visited
    requires Collecting(s, i, |s|, visited, group, visited', joins)
    ensures Scanning(s, i + 1, if |group| > 1 then groups + [group] else groups, visited', joins)
  {
    AnchorStep(s, i, groups, group, visited, visited', joins);
    if |group| > 1 {
      PushWellFormed(s, i, groups, group, joins);
      PushIdsUnique(groups, group, visited);
    }
  }

  /** The outer loop of the scan over the ordered resources: every entry not yet visited
      anchors a group, and groups with more than one member are kept. */
  method ScanGroups(s: seq<LibraryResource>, joins: (LibraryResource, LibraryResource) -> bool)
    returns (groups: seq<seq<LibraryResource>>)
    requires SortedByTitleLength(s)
    ensures GroupsWellFormed(s, groups, joins)
    ensures GroupIdsUnique(groups)
    ensures IdsDistinct(s) ==> NoMissedPair(s, |s|, groups, joins)
  {
    var visited: set<string> := {};
    groups := [];
    var i := 0;
    ScanStart(s, joins);
    while i < |s|
      invariant Scanning(s, i, groups, visited, joins)
    {
      if s[i].id !in visited {
        var group, visited' := CollectGroup(s, i, visited, joins);
        ScanAnchor(s, i, groups, group, visited, visited', joins);
        if |group| > 1 {
          groups := groups + [group];
        }
        visited := visited';
      } else {
        SkipStep(s, i, groups, visited, joins);
      }
      i := i + 1;
    }
  }

  /** What the scan over the ordered copy says about the library itself, for a symmetric test. */
  lemma ScanFacts(library: seq<LibraryResource>, s: seq<LibraryResource>, groups: seq<seq<LibraryResource>>,
                  joins: (LibraryResource, LibraryResource) -> bool)
    requires multiset(s) == multiset(library)
    requires GroupsWellFormed(s, groups, joins)
    requires IdsDistinct(library) ==> IdsDistinct(s) && NoMissedPair(s, |s|, groups, joins)
    requires forall x, y :: joins(x, y) == joins(y, x)
    ensures forall g, k :: 0 <= g < |groups| && 0 <= k < |groups[g]| ==> groups[g][k] in library
    ensures IdsDistinct(library) ==>
              forall x, y :: (x in library && y in library && x.id != y.id
                && x.id !in GroupedIds(groups) && y.id !in GroupedIds(groups)) ==> !joins(x, y)
  {
    forall g, k | 0 <= g < |groups| && 0 <= k < |groups[g]|
      ensures groups[g][k] in library
    {
      assert groups[g][k] in multiset(s);
    }
    if IdsDistinct(library) {
      forall x, y | x in library && y in library && x.id != y.id
          && x.id !in GroupedIds(groups) && y.id !in GroupedIds(groups)
        ensures !joins(x, y)
      {
        assert x in multiset(s) && y in multiset(s);
        var p :| 0 <= p < |s| && s[p] == x;
        var q :| 0 <= q < |s| && s[q] == y;
        if q < p {
          assert !joins(y, x);
        }
      }
    }
  }

  /** `scanLibrary`: the groups of likely duplicates, each led by its anchor. Every group has
      at least two members, each similar to the anchor, taken from the library and with a
      title no longer than the anchor's; no id is placed twice; and, when library ids are
      unique, no two resources left out of every group are similar to each other. */
  method ScanLibrary(library: seq<LibraryResource>) returns (groups: seq<seq<LibraryResource>>)
    ensures forall g :: 0 <= g < |groups| ==> |groups[g]| >= 2
    ensures forall g, k :: 0 <= g < |groups| && 1 <= k < |groups[g]| ==> Matches(groups[g][0], groups[g][k])
    ensures forall g, k :: 0 <= g < |groups| && 0 <= k < |groups[g]| ==>
              groups[g][k] in library && TitleLength(groups[g][k]) <= TitleLength(groups[g][0])
    ensures GroupIdsUnique(groups)
    ensures IdsDistinct(library) ==>
              forall x, y :: (x in library && y in library && x.id != y.id
                && x.id !in GroupedIds(groups) && y.id !in GroupedIds(groups)) ==> !Matches(x, y)
  {
    var s := SortByTitleLength(library);
    SortSorted(library);
    groups := ScanGroups(s, Matches);
    if IdsDistinct(library) {
      SortIdsDistinct(library);
    }
    forall x, y
      ensures Matches(x, y) == Matches(y, x)
    {
      MatchesSymmetric(x, y);
    }
    ScanFacts(library, s, groups, Matches);
  }
}
