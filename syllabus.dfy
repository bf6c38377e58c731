/**
 * The syllabus editor of one course: pasting a syllabus record, the instructor list and its
 * main-instructor star, the CLO mapping table and its coverage button, the assessment plan,
 * the credit summary and the topic numbers given to an imported syllabus.
 *
 * Every edit is computed from the course on screen and written back with `updateCourse`,
 * which replaces the fields it names in the course with that id.
 */
module SyllabusEditor {

  import opened Wrappers
  import opened Types
  import opened Seqs
  import opened Text
  import opened Numbers
  import opened CourseFields

  // ---------------------------------------------------------------------------------------
  // Pasting a syllabus record

  /** `handleJsonPasteImport`: blank text, or text that does not parse (`parsed` is `None`),
      changes nothing. Otherwise `updateCourse` spreads the pasted record over the course with
      this id in the current state: the fields the record carries replace that course's, the
      others keep their current values, and the id and the ten catalog fields are always
      those of the course on screen. */
  function PasteImport(st: AppState, course: Course, jsonText: string, parsed: Option<PastedSyllabus>): (r: AppState)
    ensures Trim(jsonText) == "" || parsed.None? ==> r == st
    ensures r == st.(courses := r.courses)
    ensures |r.courses| == |st.courses|
    ensures forall i :: 0 <= i < |st.courses| ==> r.courses[i].id == st.courses[i].id
    ensures Trim(jsonText) != "" && parsed.Some? ==>
      forall i :: 0 <= i < |st.courses| && st.courses[i].id == course.id ==>
        && CatalogOf(r.courses[i]) == CatalogOf(course)
        && ContentOf(r.courses[i]) == PastedOver(ContentOf(st.courses[i]), parsed.value)
    ensures forall i :: 0 <= i < |st.courses| && st.courses[i].id != course.id ==> r.courses[i] == st.courses[i]
  {
    if Trim(jsonText) == "" || parsed.None? then st
    else
      var p := parsed.value;
      st.(courses := MapCourseWithId(st.courses, course.id,
                                     (c: Course) => Assemble(CatalogOf(course), PastedOver(ContentOf(c), p))))
  }

  /** Pasting the same record a second time changes nothing more. */
  lemma PasteImportTwice(st: AppState, course: Course, jsonText: string, parsed: Option<PastedSyllabus>)
    ensures PasteImport(PasteImport(st, course, jsonText, parsed), course, jsonText, parsed)
         == PasteImport(st, course, jsonText, parsed)
  {
    var once := PasteImport(st, course, jsonText, parsed);
    var twice := PasteImport(once, course, jsonText, parsed);
    if Trim(jsonText) != "" && parsed.Some? {
      forall i | 0 <= i < |st.courses| ensures twice.courses[i] == once.courses[i] {
        if st.courses[i].id == course.id {
          PastedOverLaws(ContentOf(st.courses[i]), ContentOf(st.courses[i]), parsed.value);
          AssembleParts(once.courses[i]);
          AssembleParts(twice.courses[i]);
        }
      }
    }
    assert twice.courses == once.courses;
  }

  /** A pasted record that carries every syllabus field gives the course exactly that
      syllabus, whatever it held before. */
  lemma PasteCompleteRecord(st: AppState, course: Course, jsonText: string, t: Content, i: nat)
    requires Trim(jsonText) != "" && i < |st.courses| && st.courses[i].id == course.id
    ensures PasteImport(st, course, jsonText, Some(Complete(t))).courses[i] == Assemble(CatalogOf(course), t)
  {
    var r := PasteImport(st, course, jsonText, Some(Complete(t)));
    PastedOverLaws(t, ContentOf(st.courses[i]), Complete(t));
    AssembleParts(r.courses[i]);
  }

  // ---------------------------------------------------------------------------------------
  // Instructors

  /** The details a newly added instructor gets. */
  const NewDetail := InstructorDetail("", Some(false))

  /** `toggleInstructor(facultyId)`: a listed instructor is removed together with their
      details; an unlisted one is appended and gets blank details unless some exist. */
  function ToggleInstructor(c: Course, facultyId: string): (r: Course)
    ensures r == c.(instructorIds := r.instructorIds, instructorDetails := r.instructorDetails)
    ensures facultyId in r.instructorIds <==> facultyId !in c.instructorIds
    ensures forall id :: id != facultyId ==> (id in r.instructorIds <==> id in c.instructorIds)
    ensures facultyId !in c.instructorIds ==> r.instructorIds == c.instructorIds + [facultyId]
    ensures facultyId in c.instructorIds ==> facultyId !in r.instructorDetails
    ensures facultyId !in c.instructorIds ==>
      facultyId in r.instructorDetails &&
      r.instructorDetails[facultyId] == (if facultyId in c.instructorDetails then c.instructorDetails[facultyId] else NewDetail)
    ensures forall k :: k != facultyId ==>
      (k in r.instructorDetails <==> k in c.instructorDetails) &&
      (k in c.instructorDetails ==> r.instructorDetails[k] == c.instructorDetails[k])
  {
    if facultyId in c.instructorIds then
      c.(instructorIds := Remove(c.instructorIds, facultyId),
         instructorDetails := c.instructorDetails - {facultyId})
    else
      c.(instructorIds := c.instructorIds + [facultyId],
         instructorDetails := if facultyId in c.instructorDetails then c.instructorDetails
                              else c.instructorDetails[facultyId := NewDetail])
  }

  /** Every listed instructor has details, and every detail belongs to a listed instructor. */
  ghost predicate InstructorsConsistent(c: Course)
  {
    (forall id :: id in c.instructorIds ==> id in c.instructorDetails) &&
    (forall k :: k in c.instructorDetails ==> k in c.instructorIds)
  }

  lemma ToggleInstructorConsistent(c: Course, facultyId: string)
    requires InstructorsConsistent(c)
    ensures InstructorsConsistent(ToggleInstructor(c, facultyId))
  {
  }

  /** Adding an instructor who has no details and removing them again gives the course back. */
  lemma ToggleInstructorTwice(c: Course, facultyId: string)
    requires facultyId !in c.instructorIds && facultyId !in c.instructorDetails
    ensures ToggleInstructor(ToggleInstructor(c, facultyId), facultyId) == c
  {
    var once := ToggleInstructor(c, facultyId);
    RemoveAppended(c.instructorIds, facultyId);
    assert once.instructorDetails - {facultyId} == c.instructorDetails;
  }

  /** The details after instructor `facultyId`'s star is clicked: the same keys and class
      information, and exactly the chosen key marked main. */
  function WithMain(details: map<string, InstructorDetail>, facultyId: string): (r: map<string, InstructorDetail>)
    ensures r.Keys == details.Keys
    ensures forall k :: k in r ==> r[k].classInfo == details[k].classInfo && r[k].isMain.Some?
    ensures forall k :: k in r ==> (r[k].isMain == Some(true) <==> k == facultyId)
  {
    map k | k in details :: details[k].(isMain := Some(k == facultyId))
  }

  /** The star's click handler: `newDetails` is filled key by key over the current details. */
  method SetMainInstructor(details: map<string, InstructorDetail>, facultyId: string)
    returns (newDetails: map<string, InstructorDetail>)
    ensures newDetails == WithMain(details, facultyId)
  {
    newDetails := map[];
    var keys := details.Keys;
    while keys != {}
      invariant keys <= details.Keys
      invariant newDetails.Keys == details.Keys - keys
      invariant forall k :: k in newDetails ==> newDetails[k] == details[k].(isMain := Some(k == facultyId))
      decreases keys
    {
      var k :| k in keys;
      newDetails := newDetails[k := details[k].(isMain := Some(k == facultyId))];
      keys := keys - {k};
    }
  }

  /** Choosing the same main instructor again changes nothing. */
  lemma WithMainTwice(details: map<string, InstructorDetail>, facultyId: string)
    ensures WithMain(WithMain(details, facultyId), facultyId) == WithMain(details, facultyId)
  {
  }

  // ---------------------------------------------------------------------------------------
  // CLO mapping table

  /** The fields a row of the CLO table passes to `updateCloMap` (`Partial<CloMapping>`). */
  datatype CloPatch = CloPatch(topicIds: Option<seq<string>>, teachingMethodIds: Option<seq<string>>,
                               assessmentMethodIds: Option<seq<string>>, coverageLevel: Option<CoverageLevel>,
                               soIds: Option<seq<string>>, piIds: Option<seq<string>>)

  /** `{ ...m, ...updates }`. */
  function Patch(m: CloMapping, p: CloPatch): (r: CloMapping)
    ensures r.cloIndex == m.cloIndex
  {
    CloMapping(m.cloIndex, p.topicIds.GetOr(m.topicIds), p.teachingMethodIds.GetOr(m.teachingMethodIds),
               p.assessmentMethodIds.GetOr(m.assessmentMethodIds), p.coverageLevel.GetOr(m.coverageLevel),
               p.soIds.GetOr(m.soIds), if p.piIds.Some? then Some(p.piIds.value) else m.piIds)
  }

  /** The row shown for a CLO that has no mapping yet. */
  function DefaultClo(cloIndex: int): CloMapping
  {
    CloMapping(cloIndex, [], [], [], CoverageNone, [], Some([]))
  }

  /** `findIndex(m => m.cloIndex === cloIndex)`. */
  function FindClo(maps: seq<CloMapping>, cloIndex: int): (r: int)
    ensures -1 <= r < |maps|
    ensures r == -1 <==> forall k :: 0 <= k < |maps| ==> maps[k].cloIndex != cloIndex
    ensures r >= 0 ==> maps[r].cloIndex == cloIndex && forall k :: 0 <= k < r ==> maps[k].cloIndex != cloIndex
  {
    if maps == [] then -1
    else if maps[0].cloIndex == cloIndex then 0
    else
      var r := FindClo(maps[1..], cloIndex);
      if r == -1 then -1 else r + 1
  }

  /** The mapping the table shows for a CLO: the first entry with its index, or the default. */
  function CloRow(maps: seq<CloMapping>, cloIndex: int): (r: CloMapping)
    ensures r.cloIndex == cloIndex
  {
    var i := FindClo(maps, cloIndex);
    if i < 0 then DefaultClo(cloIndex) else maps[i]
  }

  /** At most one entry per CLO index. */
  ghost predicate CloIndicesUnique(maps: seq<CloMapping>)
  {
    forall i, j :: 0 <= i < j < |maps| ==> maps[i].cloIndex != maps[j].cloIndex
  }

  /** Two lists with the same CLO index at every position of the first, and only entries
      for other indices after it, find an index `j` at the same place. */
  lemma FindCloAgrees(a: seq<CloMapping>, b: seq<CloMapping>, j: int)
    requires |a| <= |b|
    requires forall k :: 0 <= k < |a| ==> b[k].cloIndex == a[k].cloIndex
    requires forall k :: |a| <= k < |b| ==> b[k].cloIndex != j
    ensures FindClo(b, j) == FindClo(a, j)
  {
    var i := FindClo(a, j);
    if i >= 0 {
      assert b[i].cloIndex == j;
    }
  }

  /** The first entry for a CLO index is found where it is. */
  lemma FindCloFirst(xs: seq<CloMapping>, cloIndex: int, i: nat)
    requires i < |xs| && xs[i].cloIndex == cloIndex
    requires forall k :: 0 <= k < i ==> xs[k].cloIndex != cloIndex
    ensures FindClo(xs, cloIndex) == i
  {
  }

  /** `updateCloMap(cloIndex, updates)`: the entry for the CLO is patched in place, or the
      patched default row is appended. The table then shows the patched row for that CLO and
      the same rows for every other CLO, and no CLO gains a second entry. */
  function UpdateCloMap(maps: seq<CloMapping>, cloIndex: int, p: CloPatch): (r: seq<CloMapping>)
    ensures CloRow(r, cloIndex) == Patch(CloRow(maps, cloIndex), p)
    ensures forall j :: j != cloIndex ==> CloRow(r, j) == CloRow(maps, j)
    ensures |r| == |maps| + (if FindClo(maps, cloIndex) < 0 then 1 else 0)
    ensures forall k :: 0 <= k < |maps| ==> r[k].cloIndex == maps[k].cloIndex
    ensures CloIndicesUnique(maps) ==> CloIndicesUnique(r)
  {
    var i := FindClo(maps, cloIndex);
    var r := if i >= 0 then maps[i := Patch(maps[i], p)] else maps + [Patch(DefaultClo(cloIndex), p)];
    assert forall k :: 0 <= k < |maps| ==> r[k].cloIndex == maps[k].cloIndex;
    assert forall j :: j != cloIndex ==> FindClo(r, j) == FindClo(maps, j) by {
      forall j | j != cloIndex {
        FindCloAgrees(maps, r, j);
      }
    }
    if i < 0 then
      FindCloFirst(r, cloIndex, |maps|);
      r
    else
      FindCloFirst(r, cloIndex, i);
      r
  }

  /** The order the coverage button steps through: none, I, R, M. */
  const CoverageOrder := [CoverageNone, CoverageI, CoverageR, CoverageM]

  /** `order.indexOf(level)`. */
  function CoveragePos(l: CoverageLevel): (r: nat)
    ensures r < 4 && CoverageOrder[r] == l
  {
    match l
    case CoverageNone => 0
    case CoverageI => 1
    case CoverageR => 2
    case CoverageM => 3
  }

  /** `order[(order.indexOf(level) + 1) % 4]`. */
  function NextCoverage(l: CoverageLevel): (r: CoverageLevel)
    ensures r != l
  {
    CoverageOrder[(CoveragePos(l) + 1) % 4]
  }

  /** Four steps bring every level back. */
  lemma NextCoverageFour(l: CoverageLevel)
    ensures NextCoverage(NextCoverage(NextCoverage(NextCoverage(l)))) == l
  {
  }

  /** One press of a CLO's coverage button. */
  function PressCoverage(maps: seq<CloMapping>, cloIndex: int): seq<CloMapping>
  {
    var next := NextCoverage(CloRow(maps, cloIndex).coverageLevel);
    UpdateCloMap(maps, cloIndex, CloPatch(None, None, None, Some(next), None, None))
  }

  /** A press steps the coverage of that CLO's row and leaves every other row as it was. */
  lemma PressCoverageRow(maps: seq<CloMapping>, cloIndex: int, j: int)
    ensures CloRow(PressCoverage(maps, cloIndex), j)
         == if j == cloIndex then CloRow(maps, j).(coverageLevel := NextCoverage(CloRow(maps, j).coverageLevel))
            else CloRow(maps, j)
  {
  }

  /** Four presses show every row exactly as before. */
  lemma PressCoverageFourTimes(maps: seq<CloMapping>, cloIndex: int, j: int)
    ensures CloRow(PressCoverage(PressCoverage(PressCoverage(PressCoverage(maps, cloIndex), cloIndex), cloIndex), cloIndex), j)
         == CloRow(maps, j)
  {
    var m1 := PressCoverage(maps, cloIndex);
    var m2 := PressCoverage(m1, cloIndex);
    var m3 := PressCoverage(m2, cloIndex);
    var m4 := PressCoverage(m3, cloIndex);
    PressCoverageRow(maps, cloIndex, j);
    PressCoverageRow(m1, cloIndex, j);
    PressCoverageRow(m2, cloIndex, j);
    PressCoverageRow(m3, cloIndex, j);
    if j == cloIndex {
      NextCoverageFour(CloRow(maps, j).coverageLevel);
    }
  }

  // ---------------------------------------------------------------------------------------
  // Assessment plan

  /** The two edits the plan table makes: choosing the method, typing the percentage. */
  datatype AssessmentEdit = SetMethodId(methodId: string) | SetPercentile(percentile: int)

  /** `assessmentMethods.find(m => m.id === id)`. */
  function FindAssessmentMethod(ms: seq<AssessmentMethod>, id: string): (r: Option<AssessmentMethod>)
    ensures r.Some? ==> r.value in ms && r.value.id == id
    ensures r.None? <==> forall m :: m in ms ==> m.id != id
  {
    if ms == [] then None
    else if ms[0].id == id then Some(ms[0])
    else FindAssessmentMethod(ms[1..], id)
  }

  /** `updateAssessment(idx, field, value)`: the edit is applied to item `idx`; a new method
      also gives the item that method's name when the item has no Vietnamese name yet. */
  function UpdateAssessment(plan: seq<AssessmentItem>, idx: nat, edit: AssessmentEdit,
                            methods: seq<AssessmentMethod>): (r: seq<AssessmentItem>)
    requires idx < |plan|
    ensures |r| == |plan|
    ensures forall k :: 0 <= k < |plan| && k != idx ==> r[k] == plan[k]
    ensures r[idx].id == plan[idx].id
    ensures edit.SetPercentile? ==> r[idx] == plan[idx].(percentile := edit.percentile)
    ensures edit.SetMethodId? ==> r[idx].methodId == edit.methodId && r[idx].percentile == plan[idx].percentile
    ensures edit.SetMethodId? && plan[idx].kind.vi != "" ==> r[idx].kind == plan[idx].kind
    ensures edit.SetMethodId? && plan[idx].kind.vi == "" && (forall m :: m in methods ==> m.id != edit.methodId) ==>
      r[idx].kind == plan[idx].kind
    ensures edit.SetMethodId? && plan[idx].kind.vi == "" && (exists m :: m in methods && m.id == edit.methodId) ==>
      exists m :: m in methods && m.id == edit.methodId && r[idx].kind == m.name
  {
    var item := plan[idx];
    match edit
    case SetPercentile(pct) => plan[idx := item.(percentile := pct)]
    case SetMethodId(mid) =>
      var next := item.(methodId := mid);
      var found := FindAssessmentMethod(methods, mid);
      plan[idx := if found.Some? && item.kind.vi == "" then next.(kind := found.value.name) else next]
  }

  /** Making the same edit twice is making it once. */
  lemma UpdateAssessmentTwice(plan: seq<AssessmentItem>, idx: nat, edit: AssessmentEdit, methods: seq<AssessmentMethod>)
    requires idx < |plan|
    ensures UpdateAssessment(UpdateAssessment(plan, idx, edit, methods), idx, edit, methods)
         == UpdateAssessment(plan, idx, edit, methods)
  {
  }

  // ---------------------------------------------------------------------------------------
  // Credit summary

  /** The hours a topic gives a teaching method: those of its first activity with that method,
      or 0. */
  function ActivityHours(acts: seq<TopicActivity>, methodId: string): (h: nat)
    ensures h > 0 ==> exists a :: a in acts && a.methodId == methodId && a.hours == h
  {
    if acts == [] then 0
    else if acts[0].methodId == methodId then acts[0].hours
    else ActivityHours(acts[1..], methodId)
  }

  /** `topics.reduce((sum, t) => sum + hours of t, 0)`. */
  function TotalHours(topics: seq<CourseTopic>, methodId: string): (n: nat)
    ensures n > 0 ==> exists k :: 0 <= k < |topics| && ActivityHours(topics[k].activities, methodId) > 0
  {
    if topics == [] then 0
    else
      var rest := TotalHours(topics[..|topics| - 1], methodId);
      assert rest > 0 ==> exists k :: 0 <= k < |topics| && ActivityHours(topics[k].activities, methodId) > 0 by {
        if rest > 0 {
          var k :| 0 <= k < |topics| - 1 && ActivityHours(topics[..|topics| - 1][k].activities, methodId) > 0;
          assert topics[..|topics| - 1][k] == topics[k];
        }
      }
      rest + ActivityHours(topics[|topics| - 1].activities, methodId)
  }

  /** Hours are never negative, so the total has hours exactly when some topic gives the
      method hours, and it is at least the hours of each topic. */
  lemma {:induction false} TotalHoursCovers(topics: seq<CourseTopic>, methodId: string)
    ensures forall k :: 0 <= k < |topics| ==> ActivityHours(topics[k].activities, methodId) <= TotalHours(topics, methodId)
    ensures TotalHours(topics, methodId) > 0 <==>
              exists k :: 0 <= k < |topics| && ActivityHours(topics[k].activities, methodId) > 0
  {
    if topics != [] {
      var init := topics[..|topics| - 1];
      TotalHoursCovers(init, methodId);
      assert forall k :: 0 <= k < |init| ==> init[k] == topics[k];
    }
  }

  /** `tm.hoursPerCredit || 15`. */
  function Factor(tm: TeachingMethod): (f: nat)
    ensures f > 0
    ensures tm.hoursPerCredit > 0 ==> f == tm.hoursPerCredit
    ensures tm.hoursPerCredit == 0 ==> f == 15
  {
    if tm.hoursPerCredit == 0 then 15 else tm.hoursPerCredit
  }

  /** One line of the summary: credits and the hours still missing to the next whole credit. */
  datatype CreditRow = CreditRow(code: string, credits: int, totalHours: nat, missing: int)

  /** `Math.ceil(total / factor)` and `total % factor === 0 ? 0 : factor - total % factor`. */
  function RowFor(tm: TeachingMethod, total: nat): CreditRow
  {
    var f := Factor(tm);
    CreditRow(tm.code, if total % f == 0 then total / f else total / f + 1, total,
              if total % f == 0 then 0 else f - total % f)
  }

  /** The credits are the least whole number whose hours cover the total, the missing hours
      are what that number of credits asks beyond the total, and a method with hours needs
      at least one credit. */
  lemma RowForArithmetic(tm: TeachingMethod, total: nat)
    ensures var row := RowFor(tm, total);
      (row.credits - 1) * Factor(tm) < total <= row.credits * Factor(tm) &&
      row.missing == row.credits * Factor(tm) - total &&
      0 <= row.missing < Factor(tm) &&
      (row.missing == 0 <==> total % Factor(tm) == 0) &&
      (total > 0 ==> row.credits >= 1)
  {
    var f := Factor(tm);
    var q := total / f;
    assert total == q * f + total % f;
    assert (q + 1) * f == q * f + f;
  }

  /** The summary row of a teaching method. */
  function MethodRow(tm: TeachingMethod, topics: seq<CourseTopic>): CreditRow
  {
    RowFor(tm, TotalHours(topics, tm.id))
  }

  /** `creditSummary`: one row per teaching method that has hours, in method order. */
  function CreditSummary(methods: seq<TeachingMethod>, topics: seq<CourseTopic>): (r: seq<CreditRow>)
    ensures |r| <= |methods|
    ensures forall tm :: tm in methods && MethodRow(tm, topics).totalHours > 0 ==> MethodRow(tm, topics) in r
    ensures forall row :: row in r ==> row.totalHours > 0
  {
    if methods == [] then []
    else
      var rest := CreditSummary(methods[1..], topics);
      assert forall x :: x in methods ==> x == methods[0] || x in methods[1..];
      var row := MethodRow(methods[0], topics);
      if row.totalHours == 0 then rest else [row] + rest
  }

  /** Every row of the summary is the row of one of the methods. */
  lemma {:induction false} CreditSummaryRows(methods: seq<TeachingMethod>, topics: seq<CourseTopic>, row: CreditRow)
    requires row in CreditSummary(methods, topics)
    ensures exists tm :: tm in methods && row == MethodRow(tm, topics)
  {
    if row != MethodRow(methods[0], topics) {
      CreditSummaryRows(methods[1..], topics, row);
      var tm :| tm in methods[1..] && row == MethodRow(tm, topics);
      assert tm in methods;
    }
  }

  /** The summary is built method by method, in order: it distributes over concatenation,
      and one method gives its row when that row has hours and nothing otherwise. */
  lemma {:induction false} CreditSummaryAppend(a: seq<TeachingMethod>, b: seq<TeachingMethod>, tm: TeachingMethod,
                                               topics: seq<CourseTopic>)
    ensures CreditSummary(a + b, topics) == CreditSummary(a, topics) + CreditSummary(b, topics)
    ensures CreditSummary([tm], topics) ==
              if MethodRow(tm, topics).totalHours > 0 then [MethodRow(tm, topics)] else []
  {
    if a != [] {
      assert (a + b)[1..] == a[1..] + b;
      CreditSummaryAppend(a[1..], b, tm, topics);
    } else {
      assert a + b == b;
    }
    assert [tm][1..] == [];
  }

  /** Every row of the summary asks at least one credit. */
  lemma {:induction false} CreditSummaryPositive(methods: seq<TeachingMethod>, topics: seq<CourseTopic>)
    ensures forall row :: row in CreditSummary(methods, topics) ==> row.credits >= 1
  {
    if methods != [] {
      CreditSummaryPositive(methods[1..], topics);
      RowForArithmetic(methods[0], TotalHours(topics, methods[0].id));
    }
  }

  // ---------------------------------------------------------------------------------------
  // Topic numbers of an imported syllabus

  /** Where the digits of a plain number end: before a final dot, if any. */
  function DigitsEnd(s: string): (n: nat)
    ensures n <= |s|
  {
    if |s| > 0 && s[|s| - 1] == '.' then |s| - 1 else |s|
  }

  /** `/^\d+\.?$/`: one or more ASCII digits, optionally followed by a single dot. */
  predicate IsPlainNumber(s: string)
  {
    var n := DigitsEnd(s);
    n >= 1 && forall k :: 0 <= k < n ==> IsDigit(s[k])
  }

  /** `parseInt(s, 10)` of a plain number is the value of its digits. */
  lemma PlainNumberValue(s: string)
    requires IsPlainNumber(s)
    ensures ParseIntRadix(s, 10) == Some(DigitsValue(s[..DigitsEnd(s)], 10) as int)
  {
    var n := DigitsEnd(s);
    TrimStartNoSpace(s);
    assert forall k :: 0 <= k < n ==> DigitValue(s[k], 10).Some?;
    assert n < |s| ==> DigitValue(s[n], 10).None?;
    assert DigitPrefixLength(s, 10) == n;
  }

  /** The number of the topic at position `idx` of an imported syllabus (`no` is empty when
      the import gave none). */
  function FormatTopicNo(no: string, idx: nat): (r: string)
    ensures StartsWith(r, "CONT ") || r == no
  {
    var display := if no != "" then no else IntToString(idx + 1);
    if IsPlainNumber(display) then "CONT " + IntToString(ParseIntRadix(display, 10).GetOr(0))
    else if !StartsWith(Upper(display), "CONT") then
      if Utf16Length(display) < 5 && ParseInt(display).Some? then "CONT " + display
      else if no == "" then "CONT " + IntToString(idx + 1)
      else display
    else display
  }

  /** The text of a position is a plain number with that value. */
  lemma PlainNumberOfPosition(n: nat)
    ensures IsPlainNumber(IntToString(n))
    ensures DigitsValue(IntToString(n)[..DigitsEnd(IntToString(n))], 10) == n
  {
    var s := IntToString(n);
    assert s == NatToString(n);
    assert s[..DigitsEnd(s)] == s;
    DigitsValueNat(n);
  }

  /** A topic without a number is numbered `CONT <position>`, counting from 1. */
  lemma FormatMissingNo(idx: nat)
    ensures FormatTopicNo("", idx) == "CONT " + IntToString(idx + 1)
  {
    PlainNumberOfPosition(idx + 1);
    PlainNumberValue(IntToString(idx + 1));
  }

  /** A plain number, with or without a final dot, becomes `CONT <its value>`. */
  lemma FormatPlainNumber(no: string, idx: nat)
    requires IsPlainNumber(no)
    ensures FormatTopicNo(no, idx) == "CONT " + IntToString(DigitsValue(no[..DigitsEnd(no)], 10))
  {
    PlainNumberValue(no);
  }

  /** Text that starts with CONT, in any letter case, cannot be a plain number. */
  lemma ContNotPlain(s: string)
    requires StartsWith(Upper(s), "CONT")
    ensures s != "" && !IsPlainNumber(s)
  {
    assert s != [];
    assert Upper(s)[0] == UpperOf(s[0])[0] == 'C';
  }

  /** Text that already starts with CONT, in any letter case, is kept as it is. */
  lemma FormatKeepsCont(no: string, idx: nat)
    requires StartsWith(Upper(no), "CONT")
    ensures FormatTopicNo(no, idx) == no
  {
    ContNotPlain(no);
  }

  /** Short text that is not a plain number and that `parseInt` reads a number from, such as
      `2a` or `3-4`, gets the CONT prefix. */
  lemma FormatShortCode(no: string, idx: nat)
    requires no != "" && !IsPlainNumber(no) && !StartsWith(Upper(no), "CONT")
    requires Utf16Length(no) < 5 && ParseInt(no).Some?
    ensures FormatTopicNo(no, idx) == "CONT " + no
  {
  }

  /** Given text that is neither a plain number nor a short code is kept as it is. */
  lemma FormatKeepsText(no: string, idx: nat)
    requires no != "" && !IsPlainNumber(no)
    requires !(Utf16Length(no) < 5 && ParseInt(no).Some?)
    ensures FormatTopicNo(no, idx) == no
  {
  }

  /** Every formatted number starts with CONT. */
  lemma FormattedStartsWithCont(x: string)
    ensures StartsWith(Upper("CONT " + x), "CONT")
  {
    UpperAppend("CONT ", x);
    UpperKeeps("CONT ");
    assert Upper("CONT " + x)[..4] == "CONT";
  }

  /** Formatting an already formatted number changes nothing. */
  lemma FormatTopicNoTwice(no: string, idx: nat)
    ensures FormatTopicNo(FormatTopicNo(no, idx), idx) == FormatTopicNo(no, idx)
  {
    var r := FormatTopicNo(no, idx);
    if r != no {
      var x := r[5..];
      assert r == "CONT " + x;
      FormattedStartsWithCont(x);
      FormatKeepsCont(r, idx);
    }
  }
}
