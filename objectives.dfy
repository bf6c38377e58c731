/**
 * The specific objectives of the national program description: their display order by
 * category, their letter labels, the `course|objective` keys of the course-objective matrix
 * and the links the course-outcome matrix implies.
 */
module Objectives {

  import opened Types
  import opened Seqs
  import opened Text
  import opened Numbers
  import opened Wrappers
  import Canonical

  // ---------------------------------------------------------------------------------------
  // Display order

  /** `CATEGORY_ORDER.indexOf(category)`: knowledge, skills, attitude, learning; -1 when the
      objective has no category. */
  function Rank(c: Option<MoetCategory>): (r: int)
    ensures -1 <= r <= 3
    ensures r == -1 <==> c.None?
  {
    if c.None? then -1
    else
      match c.value
      case Knowledge => 0
      case Skills => 1
      case Attitude => 2
      case Learning => 3
  }

  function RankOf(o: MoetObjective): int
  {
    Rank(o.category)
  }

  predicate SortedByRank(xs: seq<MoetObjective>)
  {
    forall i, j :: 0 <= i < j < |xs| ==> RankOf(xs[i]) <= RankOf(xs[j])
  }

  /** The objectives of one rank, in their order. */
  function OfRank(xs: seq<MoetObjective>, k: int): seq<MoetObjective>
  {
    if xs == [] then [] else (if RankOf(xs[0]) == k then [xs[0]] else []) + OfRank(xs[1..], k)
  }

  /** x placed before the first objective of the same or a later rank. */
  function Insert(x: MoetObjective, ys: seq<MoetObjective>): (r: seq<MoetObjective>)
    ensures multiset(r) == multiset(ys) + multiset{x}
  {
    if ys == [] || RankOf(x) <= RankOf(ys[0]) then [x] + ys
    else
      assert ys == [ys[0]] + ys[1..];
      [ys[0]] + Insert(x, ys[1..])
  }

  lemma InsertMember(x: MoetObjective, ys: seq<MoetObjective>, z: MoetObjective)
    requires z in Insert(x, ys)
    ensures z == x || z in ys
  {
    assert z in multiset(Insert(x, ys));
  }

  lemma {:induction false} InsertSorted(x: MoetObjective, ys: seq<MoetObjective>)
    requires SortedByRank(ys)
    ensures SortedByRank(Insert(x, ys))
  {
    if ys != [] && RankOf(x) > RankOf(ys[0]) {
      var rest := Insert(x, ys[1..]);
      InsertSorted(x, ys[1..]);
      forall j | 0 <= j < |rest| ensures RankOf(ys[0]) <= RankOf(rest[j]) {
        InsertMember(x, ys[1..], rest[j]);
      }
    }
  }

  /** `[...specificObjectives].sort((a, b) => rank(a) - rank(b))`. The sort is stable, so
      it is the insertion sort that puts each objective before the ones it preceded. */
  function SortByCategory(xs: seq<MoetObjective>): (r: seq<MoetObjective>)
    ensures multiset(r) == multiset(xs)
  {
    if xs == [] then []
    else
      assert xs == [xs[0]] + xs[1..];
      Insert(xs[0], SortByCategory(xs[1..]))
  }

  /** The sorted objectives are in category order. */
  lemma {:induction false} SortByCategorySorted(xs: seq<MoetObjective>)
    ensures SortedByRank(SortByCategory(xs))
  {
    if xs != [] {
      SortByCategorySorted(xs[1..]);
      InsertSorted(xs[0], SortByCategory(xs[1..]));
    }
  }

  lemma {:induction false} InsertOfRank(x: MoetObjective, ys: seq<MoetObjective>, k: int)
    ensures OfRank(Insert(x, ys), k) == (if RankOf(x) == k then [x] else []) + OfRank(ys, k)
  {
    if ys == [] || RankOf(x) <= RankOf(ys[0]) {
      assert ([x] + ys)[1..] == ys;
    } else {
      var rest := Insert(x, ys[1..]);
      InsertOfRank(x, ys[1..], k);
      assert ([ys[0]] + rest)[1..] == rest;
      assert OfRank([ys[0]] + rest, k) == (if RankOf(ys[0]) == k then [ys[0]] else []) + OfRank(rest, k);
    }
  }

  /** Stability: the objectives of each category keep their relative order. */
  lemma {:induction false} SortByCategoryStable(xs: seq<MoetObjective>, k: int)
    ensures OfRank(SortByCategory(xs), k) == OfRank(xs, k)
  {
    if xs != [] {
      SortByCategoryStable(xs[1..], k);
      InsertOfRank(xs[0], SortByCategory(xs[1..]), k);
    }
  }

  // ---------------------------------------------------------------------------------------
  // Labels

  /** The alphabet. */
  const Letters: string := "ABCDEFGHIJKLMNOPQRSTUVWXYZ"

  lemma LetterCode(k: nat)
    requires k < 26
    ensures Letters[k] as int == 'A' as int + k
  {
  }

  /** `findIndex(o => o.id === id)`: the first position with that id, -1 when none. */
  function FindIndex(xs: seq<MoetObjective>, id: string): (r: int)
    ensures -1 <= r < |xs|
    ensures r == -1 <==> forall k :: 0 <= k < |xs| ==> xs[k].id != id
    ensures r >= 0 ==> xs[r].id == id && forall k :: 0 <= k < r ==> xs[k].id != id
  {
    if xs == [] then -1
    else if xs[0].id == id then 0
    else
      var r := FindIndex(xs[1..], id);
      if r == -1 then -1 else r + 1
  }

  /** The label of position i: its letter, followed by `i / 26` from the 27th position on. */
  function LabelAt(i: nat): (r: string)
    ensures r != [] && r[0] == Letters[i % 26]
    ensures |r| == 1 <==> i < 26
  {
    if i < 26 then [Letters[i]] else [Letters[i % 26]] + IntToString(i / 26)
  }

  /** `getObjectiveLabel(id)`: the label of the objective's position in the sorted list, or
      `?` when no objective has that id. */
  function ObjectiveLabel(sorted: seq<MoetObjective>, id: string): (r: string)
    ensures r == "?" <==> forall k :: 0 <= k < |sorted| ==> sorted[k].id != id
  {
    var i := FindIndex(sorted, id);
    if i == -1 then "?" else LabelAt(i)
  }

  lemma LabelTail(i: nat)
    requires i >= 26
    ensures LabelAt(i)[1..] == IntToString(i / 26)
  {
  }

  /** Different positions get different labels. */
  lemma LabelAtInjective(i: nat, j: nat)
    requires LabelAt(i) == LabelAt(j)
    ensures i == j
  {
    LetterCode(i % 26);
    LetterCode(j % 26);
    assert Letters[i % 26] == Letters[j % 26];
    if i >= 26 {
      LabelTail(i);
      LabelTail(j);
      IntToStringInjective(i / 26, j / 26);
    }
  }

  /** Two different objectives of the list never share a label. */
  lemma LabelsDistinct(sorted: seq<MoetObjective>, a: string, b: string)
    requires a != b
    requires exists k :: 0 <= k < |sorted| && sorted[k].id == a
    requires exists k :: 0 <= k < |sorted| && sorted[k].id == b
    ensures ObjectiveLabel(sorted, a) != ObjectiveLabel(sorted, b)
  {
    var i := FindIndex(sorted, a);
    var j := FindIndex(sorted, b);
    if LabelAt(i) == LabelAt(j) {
      LabelAtInjective(i, j);
    }
  }

  // ---------------------------------------------------------------------------------------
  // The course-objective matrix

  /** The compound key `${courseId}|${objectiveId}`. */
  function ObjectiveKey(courseId: string, objectiveId: string): string
  {
    courseId + "|" + objectiveId
  }

  /** Splitting a key on `|` gives back both halves when neither contains `|`. */
  lemma ObjectiveKeySplit(courseId: string, objectiveId: string)
    requires '|' !in courseId && '|' !in objectiveId
    ensures Canonical.KeyCourse(ObjectiveKey(courseId, objectiveId)) == courseId
    ensures Canonical.KeyObjective(ObjectiveKey(courseId, objectiveId)) == objectiveId
  {
    SplitPieceThenSep(courseId, '|', objectiveId);
    SplitPiece(objectiveId, '|');
  }

  /** `toggleCourseObjective`: the key is removed when present, appended otherwise. */
  function ToggleCourseObjective(keys: seq<string>, courseId: string, objectiveId: string): (r: seq<string>)
    ensures ObjectiveKey(courseId, objectiveId) in r <==> ObjectiveKey(courseId, objectiveId) !in keys
    ensures forall x :: x != ObjectiveKey(courseId, objectiveId) ==> (x in r <==> x in keys)
  {
    var key := ObjectiveKey(courseId, objectiveId);
    if key in keys then Remove(keys, key) else keys + [key]
  }

  /** Toggling twice restores which keys are present, and the very list when the key was
      absent. */
  lemma ToggleCourseObjectiveTwice(keys: seq<string>, courseId: string, objectiveId: string)
    ensures forall x :: x in ToggleCourseObjective(ToggleCourseObjective(keys, courseId, objectiveId), courseId, objectiveId)
                        <==> x in keys
    ensures ObjectiveKey(courseId, objectiveId) !in keys ==>
              ToggleCourseObjective(ToggleCourseObjective(keys, courseId, objectiveId), courseId, objectiveId) == keys
  {
    var key := ObjectiveKey(courseId, objectiveId);
    if key !in keys {
      RemoveAppended(keys, key);
    }
  }

  // ---------------------------------------------------------------------------------------
  // Implied links

  /** Does entry m put its course at a level of outcome s? */
  predicate Reaches(m: CourseSo, soId: string)
  {
    m.soId == soId && m.level != IrmNone
  }

  /** The keys contributed by one outcome of objective `objectiveId`: one per entry of the
      course-outcome matrix that reaches the outcome. */
  function MatchLinks(objectiveId: string, soId: string, ms: seq<CourseSo>): set<string>
  {
    if ms == [] then {}
    else
      var m := ms[|ms| - 1];
      MatchLinks(objectiveId, soId, ms[..|ms| - 1]) + (if Reaches(m, soId) then {ObjectiveKey(m.courseId, objectiveId)} else {})
  }

  function SoLinks(o: MoetObjective, sos: seq<string>, ms: seq<CourseSo>): set<string>
  {
    if sos == [] then {} else SoLinks(o, sos[..|sos| - 1], ms) + MatchLinks(o.id, sos[|sos| - 1], ms)
  }

  function ObjectiveLinks(objs: seq<MoetObjective>, ms: seq<CourseSo>): set<string>
  {
    if objs == [] then {}
    else
      var o := objs[|objs| - 1];
      ObjectiveLinks(objs[..|objs| - 1], ms) + SoLinks(o, o.soIds, ms)
  }

  lemma {:induction false} MatchLinksMeaning(objectiveId: string, soId: string, ms: seq<CourseSo>, x: string)
    ensures x in MatchLinks(objectiveId, soId, ms) <==>
              exists m :: m in ms && Reaches(m, soId) && x == ObjectiveKey(m.courseId, objectiveId)
  {
    if ms != [] {
      var init := ms[..|ms| - 1];
      MatchLinksMeaning(objectiveId, soId, init, x);
      assert ms == init + [ms[|ms| - 1]];
    }
  }

  lemma {:induction false} SoLinksMeaning(o: MoetObjective, sos: seq<string>, ms: seq<CourseSo>, x: string)
    ensures x in SoLinks(o, sos, ms) <==>
              exists s, m :: s in sos && m in ms && Reaches(m, s) && x == ObjectiveKey(m.courseId, o.id)
  {
    if sos != [] {
      var init := sos[..|sos| - 1];
      var last := sos[|sos| - 1];
      SoLinksMeaning(o, init, ms, x);
      MatchLinksMeaning(o.id, last, ms, x);
      assert sos == init + [last];
    }
  }

  /** `c|o` is an implied link exactly when objective o lists an outcome s and the
      course-outcome matrix puts course c at a level of s. */
  lemma {:induction false} ImpliedLinkMeaning(objs: seq<MoetObjective>, ms: seq<CourseSo>, x: string)
    ensures x in ObjectiveLinks(objs, ms) <==>
              exists o, s, m :: o in objs && s in o.soIds && m in ms && Reaches(m, s) && x == ObjectiveKey(m.courseId, o.id)
  {
    if objs != [] {
      var init := objs[..|objs| - 1];
      var last := objs[|objs| - 1];
      ImpliedLinkMeaning(init, ms, x);
      SoLinksMeaning(last, last.soIds, ms, x);
      assert objs == init + [last];
    }
  }

  ghost predicate InnerDone(links: set<string>, objs: seq<MoetObjective>, i: nat, j: nat, ms: seq<CourseSo>, k: nat)
    requires i < |objs| && j < |objs[i].soIds| && k <= |ms|
  {
    links == ObjectiveLinks(objs[..i], ms) + SoLinks(objs[i], objs[i].soIds[..j], ms)
                                           + MatchLinks(objs[i].id, objs[i].soIds[j], ms[..k])
  }

  lemma InnerStep(links: set<string>, objs: seq<MoetObjective>, i: nat, j: nat, ms: seq<CourseSo>, k: nat)
    requires i < |objs| && j < |objs[i].soIds| && k < |ms| && InnerDone(links, objs, i, j, ms, k)
    ensures InnerDone(links + (if Reaches(ms[k], objs[i].soIds[j]) then {ObjectiveKey(ms[k].courseId, objs[i].id)} else {}),
                      objs, i, j, ms, k + 1)
  {
    assert ms[..k + 1][..k] == ms[..k];
  }

  ghost predicate MiddleDone(links: set<string>, objs: seq<MoetObjective>, i: nat, j: nat, ms: seq<CourseSo>)
    requires i < |objs| && j <= |objs[i].soIds|
  {
    links == ObjectiveLinks(objs[..i], ms) + SoLinks(objs[i], objs[i].soIds[..j], ms)
  }

  lemma MiddleStep(links: set<string>, objs: seq<MoetObjective>, i: nat, j: nat, ms: seq<CourseSo>)
    requires i < |objs| && j < |objs[i].soIds| && InnerDone(links, objs, i, j, ms, |ms|)
    ensures MiddleDone(links, objs, i, j + 1, ms)
  {
    var sos := objs[i].soIds;
    assert sos[..j + 1][..j] == sos[..j];
    assert ms[..|ms|] == ms;
  }

  lemma OuterStep(links: set<string>, objs: seq<MoetObjective>, i: nat, ms: seq<CourseSo>)
    requires i < |objs| && MiddleDone(links, objs, i, |objs[i].soIds|, ms)
    ensures links == ObjectiveLinks(objs[..i + 1], ms)
  {
    assert objs[..i + 1][..i] == objs[..i];
    assert objs[i].soIds[..|objs[i].soIds|] == objs[i].soIds;
  }

  /** `impliedCourseObjectiveLinks`: for each objective, each of its outcomes and each entry
      of the course-outcome matrix at a level of that outcome, the key `course|objective`. */
  method ImpliedLinks(objs: seq<MoetObjective>, ms: seq<CourseSo>) returns (links: set<string>)
    ensures links == ObjectiveLinks(objs, ms)
  {
    links := {};
    var i := 0;
    while i < |objs|
      invariant 0 <= i <= |objs| && links == ObjectiveLinks(objs[..i], ms)
    {
      var o := objs[i];
      var j := 0;
      assert o.soIds[..0] == [];
      while j < |o.soIds|
        invariant 0 <= j <= |o.soIds| && MiddleDone(links, objs, i, j, ms)
      {
        var k := 0;
        assert ms[..0] == [];
        while k < |ms|
          invariant 0 <= k <= |ms| && InnerDone(links, objs, i, j, ms, k)
        {
          InnerStep(links, objs, i, j, ms, k);
          if Reaches(ms[k], o.soIds[j]) {
            links := links + {ObjectiveKey(ms[k].courseId, o.id)};
          }
          k := k + 1;
        }
        MiddleStep(links, objs, i, j, ms);
        j := j + 1;
      }
      OuterStep(links, objs, i, ms);
      i := i + 1;
    }
    assert objs[..|objs|] == objs;
  }
}
