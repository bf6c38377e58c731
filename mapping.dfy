/**
 * The course catalog and matrix screen: prerequisite / co-requisite candidates, single
 * field edits, adding and deleting courses, and the course–SO (I/R/M) and course–PI
 * matrix toggles.
 */
module CourseMapping {

  import opened Wrappers
  import opened Types
  import opened Seqs
  import opened Text
  import opened CourseFields

  // ---------------------------------------------------------------------------------------
  // Relation candidates

  datatype Relation = Prerequisite | CoRequisite

  /** The search box: the lower-cased code or name in the display language contains the
      lower-cased query. */
  predicate MatchesSearch(c: Course, search: string, lang: Language)
  {
    var q := Lower(search);
    Includes(Lower(c.code), q) || Includes(Lower(c.name.Get(lang)), q)
  }

  /** The courses offered as prerequisites (an earlier semester) or co-requisites (the same
      semester) of `course`: never the course itself, and only those matching the search. */
  function RelationCandidates(all: seq<Course>, course: Course, rel: Relation, search: string, lang: Language)
    : (r: seq<Course>)
    ensures forall c :: c in r <==>
      && c in all
      && c.id != course.id
      && (if rel == Prerequisite then c.semester < course.semester else c.semester == course.semester)
      && MatchesSearch(c, search, lang)
    ensures |r| <= |all|
  {
    Filter(all, (c: Course) =>
      c.id != course.id
      && (if rel == Prerequisite then c.semester < course.semester else c.semester == course.semester)
      && MatchesSearch(c, search, lang))
  }

  /** With an empty query, the search keeps everything. */
  lemma EmptySearchMatches(c: Course, lang: Language)
    ensures MatchesSearch(c, "", lang)
  {
    assert OccursAt(Lower(c.code), "", 0);
  }

  // ---------------------------------------------------------------------------------------
  // Single field edits

  /** The catalog fields the table edits in place. */
  datatype Field = CodeField | CreditsField | SemesterField | PrerequisitesField | CoRequisitesField
                 | EssentialField | AbetField | AreaField

  /** A value for one of those fields. */
  datatype FieldValue =
    | CodeValue(code: string)
    | CreditsValue(credits: int)
    | SemesterValue(semester: int)
    | PrerequisitesValue(prerequisites: seq<string>)
    | CoRequisitesValue(coRequisites: seq<string>)
    | EssentialValue(isEssential: bool)
    | AbetValue(isAbet: Option<bool>)
    | AreaValue(knowledgeAreaId: string)

  function FieldOf(v: FieldValue): Field
  {
    match v
    case CodeValue(_) => CodeField
    case CreditsValue(_) => CreditsField
    case SemesterValue(_) => SemesterField
    case PrerequisitesValue(_) => PrerequisitesField
    case CoRequisitesValue(_) => CoRequisitesField
    case EssentialValue(_) => EssentialField
    case AbetValue(_) => AbetField
    case AreaValue(_) => AreaField
  }

  /** The current value of a field. */
  function Read(c: Course, f: Field): (v: FieldValue)
    ensures FieldOf(v) == f
  {
    match f
    case CodeField => CodeValue(c.code)
    case CreditsField => CreditsValue(c.credits)
    case SemesterField => SemesterValue(c.semester)
    case PrerequisitesField => PrerequisitesValue(c.prerequisites)
    case CoRequisitesField => CoRequisitesValue(c.coRequisites)
    case EssentialField => EssentialValue(c.isEssential)
    case AbetField => AbetValue(c.isAbet)
    case AreaField => AreaValue(c.knowledgeAreaId)
  }

  /** `updateCourse` on one course: the field gets the value, and marking a course essential
      also marks it ABET. */
  function EditCourse(c: Course, v: FieldValue): Course
  {
    match v
    case CodeValue(x) => c.(code := x)
    case CreditsValue(x) => c.(credits := x)
    case SemesterValue(x) => c.(semester := x)
    case PrerequisitesValue(x) => c.(prerequisites := x)
    case CoRequisitesValue(x) => c.(coRequisites := x)
    case EssentialValue(x) => if x then c.(isEssential := x, isAbet := Some(true)) else c.(isEssential := x)
    case AbetValue(x) => c.(isAbet := x)
    case AreaValue(x) => c.(knowledgeAreaId := x)
  }

  /** The edited field reads back the value written; the other table fields, the id, name,
      type and the whole syllabus content keep their values, except that marking a course
      essential sets ABET. */
  lemma EditCourseFields(c: Course, v: FieldValue, f: Field)
    ensures Read(EditCourse(c, v), FieldOf(v)) == v
    ensures f != FieldOf(v) && !(f == AbetField && v == EssentialValue(true)) ==>
              Read(EditCourse(c, v), f) == Read(c, f)
    ensures v == EssentialValue(true) ==> EditCourse(c, v).isAbet == Some(true)
    ensures var d := EditCourse(c, v);
              d.id == c.id && d.name == c.name && d.kind == c.kind && ContentOf(d) == ContentOf(c)
  {
  }

  /** `updateCourse(id, field, value)` over the course list. */
  function UpdateCourse(st: AppState, id: string, v: FieldValue): (r: AppState)
    ensures r == st.(courses := r.courses)
    ensures |r.courses| == |st.courses|
    ensures forall i :: 0 <= i < |st.courses| ==>
              r.courses[i] == if st.courses[i].id == id then EditCourse(st.courses[i], v) else st.courses[i]
  {
    st.(courses := MapCourseWithId(st.courses, id, (c: Course) => EditCourse(c, v)))
  }

  // ---------------------------------------------------------------------------------------
  // Adding and deleting courses

  /** The add-course form. */
  datatype NewCourseForm = NewCourseForm(code: string, name: LocalizedString, credits: int, isEssential: bool,
                                         isAbet: bool, kind: CourseType, knowledgeAreaId: string, semester: int)

  /** `handleSaveNewCourse`: a code and a Vietnamese name are required; zero credits become
      3, semester 0 becomes 1, an empty knowledge area becomes `other`; the new course has
      the supplied fresh id and no syllabus content. */
  function SaveNewCourse(st: AppState, form: NewCourseForm, freshId: string): (r: Option<AppState>)
    ensures r.None? <==> form.code == "" || form.name.vi == ""
  {
    if form.code == "" || form.name.vi == "" then None
    else
      var c := Course(freshId, form.code, form.name, if form.credits == 0 then 3 else form.credits,
                      form.isEssential, Some(form.isAbet), form.kind,
                      if form.knowledgeAreaId == "" then "other" else form.knowledgeAreaId,
                      if form.semester == 0 then 1 else form.semester, 0, [], [], EmptyText, [],
                      Clos([], []), [], [], [], map[], []);
      Some(st.(courses := st.courses + [c]))
  }

  /** A saved course is appended after all existing ones, under the fresh id, with the form's
      values (3 credits, semester 1 and area `other` standing in for empty entries) and an
      empty syllabus; nothing else changes. */
  lemma SaveNewCourseAppends(st: AppState, form: NewCourseForm, freshId: string)
    requires form.code != "" && form.name.vi != ""
    ensures var r := SaveNewCourse(st, form, freshId).value;
      && r == st.(courses := r.courses)
      && |r.courses| == |st.courses| + 1
      && r.courses[..|st.courses|] == st.courses
      && var c := r.courses[|st.courses|];
         && c.id == freshId && c.code == form.code && c.name == form.name
         && c.credits == (if form.credits == 0 then 3 else form.credits)
         && c.semester == (if form.semester == 0 then 1 else form.semester)
         && c.knowledgeAreaId == (if form.knowledgeAreaId == "" then "other" else form.knowledgeAreaId)
         && c.isEssential == form.isEssential && c.isAbet == Some(form.isAbet) && c.kind == form.kind
         && c.credits != 0 && c.semester != 0 && c.knowledgeAreaId != "" && c.colIndex == 0
         && c.prerequisites == [] && c.coRequisites == [] && c.description == EmptyText
         && c.textbooks == [] && c.topics == [] && c.assessmentPlan == []
         && c.instructorIds == [] && c.instructorDetails == map[] && c.cloMap == []
  {
  }

  /** `deleteCourse`: the course leaves the catalog and nothing else is touched. */
  function DeleteCourse(st: AppState, id: string): (r: AppState)
    ensures id !in CourseIds(r.courses)
    ensures forall c :: c in r.courses <==> c in st.courses && c.id != id
    ensures r == st.(courses := r.courses)
  {
    st.(courses := Filter(st.courses, (c: Course) => c.id != id))
  }

  /** Deleting a course leaves every matrix entry, structure list and sub-block that named
      it in place, so they no longer resolve. */
  lemma DeleteCourseLeavesDangling(st: AppState, id: string, e: CourseSo)
    requires e in st.courseSoMap && e.courseId == id
    ensures var r := DeleteCourse(st, id);
      && e in r.courseSoMap && e.courseId !in CourseIds(r.courses)
      && r.coursePiMap == st.coursePiMap && r.coursePeoMap == st.coursePeoMap
      && r.Moet() == st.Moet()
  {
  }

  // ---------------------------------------------------------------------------------------
  // Course–SO matrix

  predicate IsPair(e: CourseSo, courseId: string, soId: string)
  {
    e.courseId == courseId && e.soId == soId
  }

  /** The level shown for a (course, SO) cell: the first matching entry's, if any. */
  function Level(m: seq<CourseSo>, courseId: string, soId: string): (l: Option<Irm>)
    ensures l.None? <==> forall e :: e in m ==> !IsPair(e, courseId, soId)
  {
    if m == [] then None
    else if IsPair(m[0], courseId, soId) then Some(m[0].level)
    else
      assert forall e :: e in m <==> e == m[0] || e in m[1..];
      Level(m[1..], courseId, soId)
  }

  /** The entries of every other cell. */
  function Others(m: seq<CourseSo>, courseId: string, soId: string): seq<CourseSo>
  {
    Filter(m, (e: CourseSo) => !IsPair(e, courseId, soId))
  }

  /** One click: none → I → R → M → none; a stored level of none is removed too. */
  function NextLevel(l: Option<Irm>): Option<Irm>
  {
    match l
    case None => Some(IrmI)
    case Some(IrmI) => Some(IrmR)
    case Some(IrmR) => Some(IrmM)
    case Some(_) => None
  }

  /** Four clicks bring a cell back to where it started. */
  lemma FourClicksRestore(l: Option<Irm>)
    requires l != Some(IrmNone)
    ensures NextLevel(NextLevel(NextLevel(NextLevel(l)))) == l
  {
  }

  /** Every entry of the cell set to `level`. */
  function SetLevel(m: seq<CourseSo>, courseId: string, soId: string, level: Irm): (r: seq<CourseSo>)
    ensures |r| == |m|
    ensures forall i :: 0 <= i < |m| ==> r[i] == if IsPair(m[i], courseId, soId) then m[i].(level := level) else m[i]
  {
    if m == [] then []
    else [if IsPair(m[0], courseId, soId) then m[0].(level := level) else m[0]] + SetLevel(m[1..], courseId, soId, level)
  }

  lemma {:induction false} SetLevelFacts(m: seq<CourseSo>, courseId: string, soId: string, level: Irm)
    requires Level(m, courseId, soId).Some?
    ensures Level(SetLevel(m, courseId, soId, level), courseId, soId) == Some(level)
    ensures Others(SetLevel(m, courseId, soId, level), courseId, soId) == Others(m, courseId, soId)
  {
    var r := SetLevel(m, courseId, soId, level);
    assert r[1..] == SetLevel(m[1..], courseId, soId, level);
    if !IsPair(m[0], courseId, soId) {
      SetLevelFacts(m[1..], courseId, soId, level);
    } else {
      SetLevelOthers(m[1..], courseId, soId, level);
    }
  }

  lemma {:induction false} SetLevelOthers(m: seq<CourseSo>, courseId: string, soId: string, level: Irm)
    ensures Others(SetLevel(m, courseId, soId, level), courseId, soId) == Others(m, courseId, soId)
  {
    if m != [] {
      var r := SetLevel(m, courseId, soId, level);
      assert r[1..] == SetLevel(m[1..], courseId, soId, level);
      SetLevelOthers(m[1..], courseId, soId, level);
    }
  }

  lemma {:induction false} FilterTwice(m: seq<CourseSo>, p: CourseSo -> bool)
    ensures Filter(Filter(m, p), p) == Filter(m, p)
  {
    FilterAll(Filter(m, p), p);
  }

  /** `toggleMapping(courseId, soId)`: the cell moves one step along the cycle and every
      other cell keeps its entries, in order. */
  method ToggleMapping(current: seq<CourseSo>, courseId: string, soId: string) returns (newMap: seq<CourseSo>)
    ensures Level(newMap, courseId, soId) == NextLevel(Level(current, courseId, soId))
    ensures Others(newMap, courseId, soId) == Others(current, courseId, soId)
  {
    var existing := Level(current, courseId, soId);
    newMap := current;
    if existing.Some? {
      var nextLevel := if existing.value == IrmI then IrmR else if existing.value == IrmR then IrmM else IrmNone;
      if nextLevel == IrmNone {
        newMap := Others(newMap, courseId, soId);
        FilterTwice(current, (e: CourseSo) => !IsPair(e, courseId, soId));
      } else {
        newMap := SetLevel(newMap, courseId, soId, nextLevel);
        SetLevelFacts(current, courseId, soId, nextLevel);
      }
    } else {
      var e := CourseSo(courseId, soId, IrmI);
      LevelSnoc(current, e, courseId, soId);
      FilterSnoc(current, e, (x: CourseSo) => !IsPair(x, courseId, soId));
      newMap := newMap + [e];
    }
  }

  lemma {:induction false} LevelSnoc(m: seq<CourseSo>, e: CourseSo, courseId: string, soId: string)
    requires Level(m, courseId, soId).None? && IsPair(e, courseId, soId)
    ensures Level(m + [e], courseId, soId) == Some(e.level)
  {
    if m == [] {
      assert [] + [e] == [e];
    } else {
      assert (m + [e])[1..] == m[1..] + [e];
      assert m[0] in m;
      LevelSnoc(m[1..], e, courseId, soId);
    }
  }

  // ---------------------------------------------------------------------------------------
  // Course–PI matrix

  /** `togglePiMapping(courseId, piId)`: removes every entry of the pair when there is one,
      otherwise appends it. */
  function TogglePi(m: seq<CoursePi>, courseId: string, piId: string): (r: seq<CoursePi>)
    ensures CoursePi(courseId, piId) in r <==> CoursePi(courseId, piId) !in m
    ensures forall e :: e != CoursePi(courseId, piId) ==> (e in r <==> e in m)
  {
    var e := CoursePi(courseId, piId);
    if e in m then Remove(m, e) else m + [e]
  }

  /** Toggling twice restores which pairs are present, and restores the very list when the
      pair was absent. */
  lemma TogglePiTwice(m: seq<CoursePi>, courseId: string, piId: string)
    ensures forall e :: e in TogglePi(TogglePi(m, courseId, piId), courseId, piId) <==> e in m
    ensures CoursePi(courseId, piId) !in m ==> TogglePi(TogglePi(m, courseId, piId), courseId, piId) == m
  {
    var e := CoursePi(courseId, piId);
    if e !in m {
      RemoveAppended(m, e);
    }
  }
}
