/**
 * Merging a group of duplicate library resources into one survivor (`mergeLibraryGroup`)
 * and counting the courses that cite a resource (`calculateUsage`).
 *
 * Every retired id is redirected to the survivor in each course's `textbooks`; a course
 * whose list changed is then de-duplicated by `resourceId`, keeping first occurrences;
 * finally the retired resources are dropped from the library. Topic `readingRefs` are not
 * rewritten, so they keep pointing at retired ids.
 */
module LibraryMerge {

  import opened Wrappers
  import opened Types
  import opened Seqs

  /** Ids to retire: every member of the group except the survivor, in group order. */
  function RetiredIds(group: seq<LibraryResource>, target: string): (r: seq<string>)
    ensures target !in r
    ensures forall x :: x in r <==> exists g :: g in group && g.id == x && x != target
  {
    if group == [] then []
    else
      var rest := RetiredIds(group[1..], target);
      assert forall g :: g in group <==> g == group[0] || g in group[1..];
      if group[0].id != target then [group[0].id] + rest else rest
  }

  /** Whether any entry of `tbs` cites one of `ids`. */
  predicate Mentions(tbs: seq<Textbook>, ids: seq<string>)
  {
    exists k :: 0 <= k < |tbs| && tbs[k].resourceId in ids
  }

  /** The textbook list with every retired id replaced by the survivor's. */
  function Redirect(tbs: seq<Textbook>, retired: seq<string>, target: string): (r: seq<Textbook>)
    requires target !in retired
    ensures |r| == |tbs|
    ensures forall k :: 0 <= k < |r| ==> r[k] == tbs[k].(resourceId := r[k].resourceId)
    ensures forall k :: 0 <= k < |r| ==>
      if tbs[k].resourceId in retired then r[k].resourceId == target else r[k] == tbs[k]
    ensures forall t :: t in r ==> t.resourceId !in retired
  {
    seq(|tbs|, k requires 0 <= k < |tbs| =>
      if tbs[k].resourceId in retired then tbs[k].(resourceId := target) else tbs[k])
  }

  /** Set of the resource ids cited by a textbook list. */
  function IdSet(tbs: seq<Textbook>): (r: set<string>)
    ensures forall t :: t in tbs ==> t.resourceId in r
    ensures forall x :: x in r ==> exists t :: t in tbs && t.resourceId == x
  {
    set t | t in tbs :: t.resourceId
  }

  /** No two entries cite the same resource. */
  ghost predicate UniqueResourceIds(tbs: seq<Textbook>)
  {
    forall i, j :: 0 <= i < j < |tbs| ==> tbs[i].resourceId != tbs[j].resourceId
  }

  /** The first entry citing `id`, if any. */
  function FirstWithId(tbs: seq<Textbook>, id: string): (r: Option<Textbook>)
    ensures r.Some? ==> r.value in tbs && r.value.resourceId == id
    ensures r.None? ==> forall t :: t in tbs ==> t.resourceId != id
  {
    if tbs == [] then None
    else if tbs[0].resourceId == id then Some(tbs[0])
    else FirstWithId(tbs[1..], id)
  }

  /** First-occurrence de-duplication by `resourceId`, skipping ids already in `seen`. */
  function DedupeFrom(tbs: seq<Textbook>, seen: set<string>): (r: seq<Textbook>)
    ensures |r| <= |tbs|
    ensures forall t :: t in r ==> t in tbs && t.resourceId !in seen
  {
    if tbs == [] then []
    else if tbs[0].resourceId in seen then DedupeFrom(tbs[1..], seen)
    else [tbs[0]] + DedupeFrom(tbs[1..], seen + {tbs[0].resourceId})
  }

  /** The `seenIds` pass over a whole list. */
  function Dedupe(tbs: seq<Textbook>): seq<Textbook>
  {
    DedupeFrom(tbs, {})
  }

  lemma {:induction false} DedupeUnique(tbs: seq<Textbook>, seen: set<string>)
    ensures UniqueResourceIds(DedupeFrom(tbs, seen))
  {
    if tbs != [] {
      if tbs[0].resourceId in seen {
        DedupeUnique(tbs[1..], seen);
      } else {
        var rest := DedupeFrom(tbs[1..], seen + {tbs[0].resourceId});
        DedupeUnique(tbs[1..], seen + {tbs[0].resourceId});
        var r := [tbs[0]] + rest;
        forall i, j | 0 <= i < j < |r| ensures r[i].resourceId != r[j].resourceId {
          assert r[j] == rest[j - 1];
          if i > 0 {
            assert r[i] == rest[i - 1];
          }
        }
      }
    }
  }

  /** Exactly the ids of the input that were not already seen survive. */
  lemma {:induction false} DedupeIds(tbs: seq<Textbook>, seen: set<string>)
    ensures IdSet(DedupeFrom(tbs, seen)) == IdSet(tbs) - seen
  {
    if tbs != [] {
      var x := tbs[0].resourceId;
      assert IdSet(tbs) == {x} + IdSet(tbs[1..]) by {
        assert forall t :: t in tbs <==> t == tbs[0] || t in tbs[1..];
      }
      if x in seen {
        DedupeIds(tbs[1..], seen);
      } else {
        DedupeIds(tbs[1..], seen + {x});
        var rest := DedupeFrom(tbs[1..], seen + {x});
        assert IdSet([tbs[0]] + rest) == {x} + IdSet(rest) by {
          assert forall t :: t in [tbs[0]] + rest <==> t == tbs[0] || t in rest;
        }
      }
    }
  }

  /** Every surviving entry is the first entry of the input with its id. */
  lemma {:induction false} DedupeKeepsFirst(tbs: seq<Textbook>, seen: set<string>)
    ensures forall t :: t in DedupeFrom(tbs, seen) ==> FirstWithId(tbs, t.resourceId) == Some(t)
  {
    if tbs != [] {
      var x := tbs[0].resourceId;
      if x in seen {
        DedupeKeepsFirst(tbs[1..], seen);
      } else {
        DedupeKeepsFirst(tbs[1..], seen + {x});
      }
    }
  }

  /** A list without repeated ids and without seen ids is left as it is. */
  lemma {:induction false} DedupeUniqueIdentity(tbs: seq<Textbook>, seen: set<string>)
    requires UniqueResourceIds(tbs)
    requires forall t :: t in tbs ==> t.resourceId !in seen
    ensures DedupeFrom(tbs, seen) == tbs
  {
    if tbs != [] {
      var x := tbs[0].resourceId;
      forall t | t in tbs[1..] ensures t.resourceId !in seen + {x} {
        var k :| 0 <= k < |tbs[1..]| && tbs[1..][k] == t;
        assert tbs[k + 1] == t;
      }
      DedupeUniqueIdentity(tbs[1..], seen + {x});
      ConsTail(tbs[0], tbs[1..]);
      assert [tbs[0]] + tbs[1..] == tbs;
    }
  }

  /** De-duplicating twice is de-duplicating once. */
  lemma DedupeIdempotent(tbs: seq<Textbook>)
    ensures Dedupe(Dedupe(tbs)) == Dedupe(tbs)
  {
    DedupeUnique(tbs, {});
    DedupeUniqueIdentity(Dedupe(tbs), {});
  }

  /** The `tb => removeIds.includes(tb.resourceId) ? {...} : tb` pass, with its `changed` flag. */
  method RedirectTextbooks(tbs: seq<Textbook>, retired: seq<string>, target: string)
    returns (out: seq<Textbook>, changed: bool)
    requires target !in retired
    ensures out == Redirect(tbs, retired, target)
    ensures changed <==> Mentions(tbs, retired)
  {
    out := [];
    changed := false;
    var k := 0;
    while k < |tbs|
      invariant 0 <= k <= |tbs|
      invariant out == Redirect(tbs[..k], retired, target)
      invariant changed <==> Mentions(tbs[..k], retired)
    {
      var tb := tbs[k];
      if tb.resourceId in retired {
        changed := true;
        tb := tb.(resourceId := target);
      }
      assert tbs[..k + 1] == tbs[..k] + [tbs[k]];
      out := out + [tb];
      k := k + 1;
    }
    assert tbs[..k] == tbs;
  }

  /** The `seenIds` / `uniqueTextbooks` loop. */
  method DedupeTextbooks(tbs: seq<Textbook>) returns (unique: seq<Textbook>)
    ensures unique == Dedupe(tbs)
  {
    unique := [];
    var seenIds: set<string> := {};
    var k := 0;
    while k < |tbs|
      invariant 0 <= k <= |tbs|
      invariant unique + DedupeFrom(tbs[k..], seenIds) == Dedupe(tbs)
    {
      var tb := tbs[k];
      assert tbs[k..][1..] == tbs[k + 1..];
      if tb.resourceId !in seenIds {
        seenIds := seenIds + {tb.resourceId};
        unique := unique + [tb];
      }
      k := k + 1;
    }
  }

  /** The new version of one course: unchanged unless it cites a retired id. */
  function MergeCourse(c: Course, retired: seq<string>, target: string): (r: Course)
    requires target !in retired
    ensures r.topics == c.topics
    ensures !Mentions(c.textbooks, retired) ==> r == c
    ensures Mentions(c.textbooks, retired) ==> r == c.(textbooks := r.textbooks) && UniqueResourceIds(r.textbooks)
    ensures forall t :: t in r.textbooks ==> t.resourceId !in retired
  {
    if Mentions(c.textbooks, retired) then
      DedupeUnique(Redirect(c.textbooks, retired, target), {});
      c.(textbooks := Dedupe(Redirect(c.textbooks, retired, target)))
    else
      assert forall t :: t in c.textbooks ==> t.resourceId !in retired by {
        forall t | t in c.textbooks ensures t.resourceId !in retired {
          var k :| 0 <= k < |c.textbooks| && c.textbooks[k] == t;
        }
      }
      c
  }

  /** One step of the `prev.courses.map(...)` callback. */
  method MergeCourseTextbooks(c: Course, retired: seq<string>, target: string) returns (r: Course)
    requires target !in retired
    ensures r == MergeCourse(c, retired, target)
  {
    var newTextbooks, changed := RedirectTextbooks(c.textbooks, retired, target);
    if !changed {
      return c;
    }
    var uniqueTextbooks := DedupeTextbooks(newTextbooks);
    r := c.(textbooks := uniqueTextbooks);
  }

  /** The document after merging: courses rewritten, retired resources removed. */
  function MergeIntoTarget(st: AppState, group: seq<LibraryResource>, target: string): (r: AppState)
  {
    var retired := RetiredIds(group, target);
    st.(courses := seq(|st.courses|, i requires 0 <= i < |st.courses| => MergeCourse(st.courses[i], retired, target)),
        library := Filter(st.library, (x: LibraryResource) => x.id !in retired))
  }

  /** Outcome of the merge button: the document and the list of groups still shown. */
  datatype MergeOutcome = MergeOutcome(state: AppState, groups: seq<seq<LibraryResource>>)

  /** `mergeLibraryGroup`: nothing happens without a selected group and a non-empty target,
      or when the index names no group; otherwise the group is merged and leaves the list. */
  function MergeLibraryGroup(st: AppState, groups: seq<seq<LibraryResource>>, selected: Option<nat>,
                             target: string): (r: MergeOutcome)
    ensures (selected.None? || target == "" || selected.value >= |groups|) ==> r == MergeOutcome(st, groups)
    ensures selected.Some? && target != "" && selected.value < |groups| ==>
      r.state == MergeIntoTarget(st, groups[selected.value], target) &&
      r.groups == groups[..selected.value] + groups[selected.value + 1..]
  {
    if selected.None? || target == "" then MergeOutcome(st, groups)
    else if selected.value >= |groups| then MergeOutcome(st, groups)
    else
      var i := selected.value;
      MergeOutcome(MergeIntoTarget(st, groups[i], target), groups[..i] + groups[i + 1..])
  }

  /** What the merge guarantees about references: no retired id survives in the library or in
      any textbook list, the survivor stays in the library, changed courses cite each resource
      at most once, every course keeps its topics (reading references included) and every
      course that cited no retired id is untouched; nothing outside courses and library changes. */
  lemma MergeIntoTargetFacts(st: AppState, group: seq<LibraryResource>, target: string)
    ensures var r := MergeIntoTarget(st, group, target);
      var retired := RetiredIds(group, target);
      && r == st.(courses := r.courses, library := r.library)
      && (forall x :: x in r.library ==> x.id !in retired)
      && (forall x :: x in r.library <==> x in st.library && x.id !in retired)
      && (target in LibraryIds(st.library) ==> target in LibraryIds(r.library))
      && |r.courses| == |st.courses|
      && (forall i :: 0 <= i < |r.courses| ==>
            && r.courses[i].topics == st.courses[i].topics
            && (forall t :: t in r.courses[i].textbooks ==> t.resourceId !in retired)
            && (!Mentions(st.courses[i].textbooks, retired) ==> r.courses[i] == st.courses[i])
            && (Mentions(st.courses[i].textbooks, retired) ==> UniqueResourceIds(r.courses[i].textbooks)))
  {
    var r := MergeIntoTarget(st, group, target);
    var retired := RetiredIds(group, target);
    if target in LibraryIds(st.library) {
      var x :| x in st.library && x.id == target;
      assert x in r.library;
    }
  }

  /** Redirecting a list that cites a retired id: the survivor is cited, every other cited id
      was cited before and is not retired, and every id cited before that is not retired is
      still cited. */
  lemma RedirectIds(tbs: seq<Textbook>, retired: seq<string>, target: string)
    requires target !in retired
    requires Mentions(tbs, retired)
    ensures target in IdSet(Redirect(tbs, retired, target))
    ensures forall x :: x in IdSet(Redirect(tbs, retired, target)) ==>
      x == target || (x in IdSet(tbs) && x !in retired)
    ensures forall x :: x in IdSet(tbs) && x !in retired ==> x in IdSet(Redirect(tbs, retired, target))
  {
    var red := Redirect(tbs, retired, target);
    var k :| 0 <= k < |tbs| && tbs[k].resourceId in retired;
    assert red[k] in red;
    forall x | x in IdSet(red) ensures x == target || (x in IdSet(tbs) && x !in retired) {
      var t :| t in red && t.resourceId == x;
      var j :| 0 <= j < |red| && red[j] == t;
      assert tbs[j] in tbs;
    }
    forall x | x in IdSet(tbs) && x !in retired ensures x in IdSet(red) {
      var t :| t in tbs && t.resourceId == x;
      var j :| 0 <= j < |tbs| && tbs[j] == t;
      assert red[j] in red;
    }
  }

  /** A changed course cites the survivor, and otherwise exactly the non-retired ids it cited. */
  lemma MergeCourseIds(c: Course, retired: seq<string>, target: string)
    requires target !in retired
    requires Mentions(c.textbooks, retired)
    ensures target in IdSet(MergeCourse(c, retired, target).textbooks)
    ensures forall x :: x in IdSet(MergeCourse(c, retired, target).textbooks) ==>
      x == target || (x in IdSet(c.textbooks) && x !in retired)
    ensures forall x :: x in IdSet(c.textbooks) && x !in retired ==>
      x in IdSet(MergeCourse(c, retired, target).textbooks)
  {
    var red := Redirect(c.textbooks, retired, target);
    RedirectIds(c.textbooks, retired, target);
    DedupeIds(red, {});
    assert MergeCourse(c, retired, target).textbooks == Dedupe(red);
  }

  /** Whether a course lists the resource among its textbooks. */
  predicate Cites(c: Course, resId: string)
  {
    exists k :: 0 <= k < |c.textbooks| && c.textbooks[k].resourceId == resId
  }

  /** Number of courses citing the resource. */
  function UsageCount(cs: seq<Course>, resId: string): (n: nat)
    ensures n <= |cs|
    ensures n == 0 <==> forall i :: 0 <= i < |cs| ==> !Cites(cs[i], resId)
  {
    if cs == [] then 0
    else
      var rest := UsageCount(cs[..|cs| - 1], resId);
      assert forall i :: 0 <= i < |cs| - 1 ==> cs[..|cs| - 1][i] == cs[i];
      rest + if Cites(cs[|cs| - 1], resId) then 1 else 0
  }

  lemma UsageCountStep(cs: seq<Course>, i: nat, resId: string)
    requires i < |cs|
    ensures UsageCount(cs[..i + 1], resId) == UsageCount(cs[..i], resId) + if Cites(cs[i], resId) then 1 else 0
  {
    assert cs[..i + 1][..i] == cs[..i];
  }

  /** `calculateUsage`: one pass over the courses with a counter. */
  method CalculateUsage(courses: seq<Course>, resId: string) returns (count: nat)
    ensures count == UsageCount(courses, resId)
  {
    count := 0;
    var i := 0;
    while i < |courses|
      invariant 0 <= i <= |courses|
      invariant count == UsageCount(courses[..i], resId)
    {
      UsageCountStep(courses, i, resId);
      if Cites(courses[i], resId) {
        count := count + 1;
      }
      i := i + 1;
    }
    assert courses[..i] == courses;
  }

  /** After a merge no course cites a retired resource any more. */
  lemma MergeLeavesNoUsage(st: AppState, group: seq<LibraryResource>, target: string, resId: string)
    requires resId in RetiredIds(group, target)
    ensures UsageCount(MergeIntoTarget(st, group, target).courses, resId) == 0
  {
    var cs := MergeIntoTarget(st, group, target).courses;
    MergeIntoTargetFacts(st, group, target);
    forall i | 0 <= i < |cs| ensures !Cites(cs[i], resId) {
      var tbs := cs[i].textbooks;
      forall k | 0 <= k < |tbs| ensures tbs[k].resourceId != resId {
        assert tbs[k] in tbs;
      }
    }
  }
}
