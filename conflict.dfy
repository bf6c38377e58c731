/**
 * Importing one faculty CV or one course syllabus given as already-parsed JSON
 * (`processImport`), and resolving a conflict with an existing record either by
 * overwriting it (`handleOverwrite`) or by adding the import under a new id
 * (`handleCreateNew`).
 */
module ImportConflict {

  import opened Wrappers
  import opened Types
  import opened Text
  import opened Numbers
  import opened CourseFields

  /** Why an import was refused. */
  datatype ImportError = JsonError | EmptyData | MissingNameOrEmail | MissingCodeOrName

  /** How the existing record was found. */
  datatype MatchReason = ById | ByName

  /** The record being imported and the one it clashes with. */
  datatype Conflict<T> = Conflict(item: T, existing: T, reason: MatchReason)

  /** Result of the import button: the (possibly) new document plus an error or a conflict
      awaiting the user's choice. */
  datatype ImportOutcome<T> = ImportOutcome(state: AppState, error: Option<ImportError>, conflict: Option<Conflict<T>>)

  /** First faculty with the given id. */
  function FindFacultyById(fs: seq<Faculty>, id: string): (r: Option<Faculty>)
    ensures r.Some? ==> r.value in fs && r.value.id == id
    ensures r.None? ==> id !in FacultyIds(fs)
  {
    if fs == [] then None
    else if fs[0].id == id then Some(fs[0])
    else FindFacultyById(fs[1..], id)
  }

  /** The name test: a non-empty normalised Vietnamese or English name equal to the faculty's. */
  predicate SameName(item: Faculty, f: Faculty)
  {
    var vi := NormalizeStr(item.name.vi);
    var en := NormalizeStr(item.name.en);
    (vi != "" && NormalizeStr(f.name.vi) == vi) || (en != "" && NormalizeStr(f.name.en) == en)
  }

  /** First faculty whose name matches. */
  function FindFacultyByName(fs: seq<Faculty>, item: Faculty): (r: Option<Faculty>)
    ensures r.Some? ==> r.value in fs && SameName(item, r.value)
    ensures r.None? ==> forall f :: f in fs ==> !SameName(item, f)
  {
    if fs == [] then None
    else if SameName(item, fs[0]) then Some(fs[0])
    else FindFacultyByName(fs[1..], item)
  }

  /** First course with the given id. */
  function FindCourseById(cs: seq<Course>, id: string): (r: Option<Course>)
    ensures r.Some? ==> r.value in cs && r.value.id == id
    ensures r.None? ==> id !in CourseIds(cs)
  {
    if cs == [] then None
    else if cs[0].id == id then Some(cs[0])
    else FindCourseById(cs[1..], id)
  }

  /** `processImport` for a CV: `None` is JSON that does not parse; only the first record is
      checked, but on success every record is appended. */
  function ImportFaculty(st: AppState, parsed: Option<seq<Faculty>>): (r: ImportOutcome<Faculty>)
  {
    if parsed.None? then ImportOutcome(st, Some(JsonError), None)
    else if parsed.value == [] then ImportOutcome(st, Some(EmptyData), None)
    else
      var item := parsed.value[0];
      if item.email == "" then ImportOutcome(st, Some(MissingNameOrEmail), None)
      else
        match FindFacultyById(st.faculties, item.id)
        case Some(ex) => ImportOutcome(st, None, Some(Conflict(item, ex, ById)))
        case None =>
          match FindFacultyByName(st.faculties, item)
          case Some(ex) => ImportOutcome(st, None, Some(Conflict(item, ex, ByName)))
          case None => ImportOutcome(st.(faculties := st.faculties + parsed.value), None, None)
  }

  /** `processImport` for a syllabus: courses are matched by id only. */
  function ImportCourse(st: AppState, parsed: Option<seq<Course>>): (r: ImportOutcome<Course>)
  {
    if parsed.None? then ImportOutcome(st, Some(JsonError), None)
    else if parsed.value == [] then ImportOutcome(st, Some(EmptyData), None)
    else
      var item := parsed.value[0];
      if item.code == "" then ImportOutcome(st, Some(MissingCodeOrName), None)
      else
        match FindCourseById(st.courses, item.id)
        case Some(ex) => ImportOutcome(st, None, Some(Conflict(item, ex, ById)))
        case None => ImportOutcome(st.(courses := st.courses + parsed.value), None, None)
  }

  /** What a CV import does: an error or a conflict leaves the document as it was; a conflict
      names an id match when there is one and a name match only when no id matches; an import
      without conflict appends the records and changes nothing else. */
  lemma ImportFacultyFacts(st: AppState, parsed: Option<seq<Faculty>>)
    ensures var r := ImportFaculty(st, parsed);
      && (r.error.Some? || r.conflict.Some? ==> r.state == st)
      && (r.error.None? <==> parsed.Some? && parsed.value != [] && parsed.value[0].email != "")
      && (r.error.None? && r.conflict.Some? ==>
            && r.conflict.value.item == parsed.value[0]
            && r.conflict.value.existing in st.faculties
            && (r.conflict.value.reason == ById <==> parsed.value[0].id in FacultyIds(st.faculties))
            && (r.conflict.value.reason == ById ==> r.conflict.value.existing.id == parsed.value[0].id)
            && (r.conflict.value.reason == ByName ==> SameName(parsed.value[0], r.conflict.value.existing)))
      && (r.error.None? && r.conflict.None? ==>
            && parsed.value[0].id !in FacultyIds(st.faculties)
            && (forall f :: f in st.faculties ==> !SameName(parsed.value[0], f))
            && r.state == st.(faculties := st.faculties + parsed.value))
  {
  }

  /** What a syllabus import does. */
  lemma ImportCourseFacts(st: AppState, parsed: Option<seq<Course>>)
    ensures var r := ImportCourse(st, parsed);
      && (r.error.Some? || r.conflict.Some? ==> r.state == st)
      && (r.error.None? <==> parsed.Some? && parsed.value != [] && parsed.value[0].code != "")
      && (r.error.None? ==>
            && (r.conflict.Some? <==> parsed.value[0].id in CourseIds(st.courses))
            && (r.conflict.Some? ==>
                  r.conflict.value.reason == ById && r.conflict.value.existing in st.courses
                  && r.conflict.value.existing.id == parsed.value[0].id)
            && (r.conflict.None? ==> r.state == st.(courses := st.courses + parsed.value)))
  {
  }

  /** `handleOverwrite` for a CV: every faculty with the existing id is replaced by the
      incoming record carrying that id. */
  function OverwriteFaculty(st: AppState, c: Conflict<Faculty>): (r: AppState)
    ensures r == st.(faculties := r.faculties)
    ensures |r.faculties| == |st.faculties|
    ensures forall i :: 0 <= i < |st.faculties| ==>
      r.faculties[i] == if st.faculties[i].id == c.existing.id then c.item.(id := c.existing.id) else st.faculties[i]
  {
    var fs := st.faculties;
    st.(faculties := seq(|fs|, i requires 0 <= i < |fs| =>
                           if fs[i].id == c.existing.id then c.item.(id := c.existing.id) else fs[i]))
  }

  /** `handleOverwrite` for a syllabus: the existing catalog record with the incoming content. */
  function OverwriteCourse(st: AppState, c: Conflict<Course>): (r: AppState)
  {
    st.(courses := MapCourseWithId(st.courses, c.existing.id,
                                   (x: Course) => PreserveCatalog(c.existing, c.item)))
  }

  /** Overwriting keeps every id where it was: the faculty list keeps its ids position by
      position, and the replaced record takes everything but its id from the import. */
  lemma OverwriteFacultyKeepsIds(st: AppState, c: Conflict<Faculty>)
    ensures var r := OverwriteFaculty(st, c);
      && (forall i :: 0 <= i < |st.faculties| ==> r.faculties[i].id == st.faculties[i].id)
      && FacultyIds(r.faculties) == FacultyIds(st.faculties)
      && (forall i :: 0 <= i < |st.faculties| && st.faculties[i].id == c.existing.id ==>
            r.faculties[i].(id := c.item.id) == c.item)
  {
    var r := OverwriteFaculty(st, c);
    SameIdsFaculties(st.faculties, r.faculties);
  }

  /** Lists with the same ids position by position have the same id set. */
  lemma SameIdsFaculties(a: seq<Faculty>, b: seq<Faculty>)
    requires |a| == |b| && forall i :: 0 <= i < |a| ==> a[i].id == b[i].id
    ensures FacultyIds(a) == FacultyIds(b)
  {
    forall x | x in FacultyIds(a) ensures x in FacultyIds(b) {
      var f :| f in a && f.id == x;
      var i :| 0 <= i < |a| && a[i] == f;
      assert b[i] in b;
    }
    forall x | x in FacultyIds(b) ensures x in FacultyIds(a) {
      var f :| f in b && f.id == x;
      var i :| 0 <= i < |b| && b[i] == f;
      assert a[i] in a;
    }
  }

  /** A syllabus overwrite replaces only the content of the matched course: each course with
      that id keeps the existing catalog record and gets the imported content, every other
      course is untouched, and nothing else in the document changes. */
  lemma OverwriteCourseFacts(st: AppState, c: Conflict<Course>)
    requires c.existing in st.courses
    ensures var r := OverwriteCourse(st, c);
      && r == st.(courses := r.courses)
      && |r.courses| == |st.courses|
      && (forall i :: 0 <= i < |st.courses| && st.courses[i].id == c.existing.id ==>
            CatalogOf(r.courses[i]) == CatalogOf(c.existing) && ContentOf(r.courses[i]) == ContentOf(c.item))
      && (forall i :: 0 <= i < |st.courses| && st.courses[i].id != c.existing.id ==> r.courses[i] == st.courses[i])
      && (forall i :: 0 <= i < |st.courses| ==> r.courses[i].id == st.courses[i].id)
  {
  }

  /** The id `handleCreateNew` invents from the clock reading `now`: `fac-<now>` or `CID-<now>`. */
  function NewFacultyId(now: nat): string { "fac-" + NatToString(now) }

  function NewCourseId(now: nat): string { "CID-" + NatToString(now) }

  /** `handleCreateNew` for a CV: the import is appended under a new id. */
  function CreateNewFaculty(st: AppState, c: Conflict<Faculty>, now: nat): (r: AppState)
    ensures r == st.(faculties := st.faculties + [c.item.(id := NewFacultyId(now))])
  {
    st.(faculties := st.faculties + [c.item.(id := NewFacultyId(now))])
  }

  /** `handleCreateNew` for a syllabus. */
  function CreateNewCourse(st: AppState, c: Conflict<Course>, now: nat): (r: AppState)
    ensures r == st.(courses := st.courses + [c.item.(id := NewCourseId(now))])
  {
    st.(courses := st.courses + [c.item.(id := NewCourseId(now))])
  }

  /** Different clock readings give different ids. */
  lemma NewIdsDiffer(now1: nat, now2: nat)
    requires now1 != now2
    ensures NewFacultyId(now1) != NewFacultyId(now2) && NewCourseId(now1) != NewCourseId(now2)
  {
    var p1, p2 := NatToString(now1), NatToString(now2);
    if p1 == p2 {
      IntToStringInjective(now1, now2);
    }
    assert NewFacultyId(now1)[4..] == p1 && NewFacultyId(now2)[4..] == p2;
    assert NewCourseId(now1)[4..] == p1 && NewCourseId(now2)[4..] == p2;
  }

  /** Creating a new record leaves the matched one (and every other) where it was, and keeps
      course ids distinct when the new id is fresh. */
  lemma CreateNewCourseKeepsIdsDistinct(st: AppState, c: Conflict<Course>, now: nat)
    requires forall i, j :: 0 <= i < j < |st.courses| ==> st.courses[i].id != st.courses[j].id
    requires NewCourseId(now) !in CourseIds(st.courses)
    ensures var r := CreateNewCourse(st, c, now);
      && r.courses[..|st.courses|] == st.courses
      && r.courses[|st.courses|].id == NewCourseId(now)
      && ContentOf(r.courses[|st.courses|]) == ContentOf(c.item)
      && (forall i, j :: 0 <= i < j < |r.courses| ==> r.courses[i].id != r.courses[j].id)
  {
    var r := CreateNewCourse(st, c, now);
    forall i, j | 0 <= i < j < |r.courses| ensures r.courses[i].id != r.courses[j].id {
      if j == |st.courses| {
        assert r.courses[i] == st.courses[i];
        assert st.courses[i] in st.courses;
      } else {
        assert r.courses[i] == st.courses[i] && r.courses[j] == st.courses[j];
      }
    }
  }

  /** The same for faculty ids. */
  lemma CreateNewFacultyKeepsIdsDistinct(st: AppState, c: Conflict<Faculty>, now: nat)
    requires forall i, j :: 0 <= i < j < |st.faculties| ==> st.faculties[i].id != st.faculties[j].id
    requires NewFacultyId(now) !in FacultyIds(st.faculties)
    ensures var r := CreateNewFaculty(st, c, now);
      && r.faculties[..|st.faculties|] == st.faculties
      && r.faculties[|st.faculties|] == c.item.(id := NewFacultyId(now))
      && (forall i, j :: 0 <= i < j < |r.faculties| ==> r.faculties[i].id != r.faculties[j].id)
  {
    var r := CreateNewFaculty(st, c, now);
    forall i, j | 0 <= i < j < |r.faculties| ensures r.faculties[i].id != r.faculties[j].id {
      if j == |st.faculties| {
        assert r.faculties[i] == st.faculties[i];
        assert st.faculties[i] in st.faculties;
      } else {
        assert r.faculties[i] == st.faculties[i] && r.faculties[j] == st.faculties[j];
      }
    }
  }

  /** The user's answer to a conflict. */
  datatype Resolution = Overwrite | CreateNew

  /** Resolving a syllabus conflict: `handleOverwrite` or `handleCreateNew`. */
  function ResolveCourse(st: AppState, c: Conflict<Course>, choice: Resolution, now: nat): (r: AppState)
    ensures choice == Overwrite ==> |r.courses| == |st.courses|
    ensures choice == CreateNew ==> |r.courses| == |st.courses| + 1
  {
    match choice
    case Overwrite => OverwriteCourse(st, c)
    case CreateNew => CreateNewCourse(st, c, now)
  }

  /** Resolving a CV conflict. */
  function ResolveFaculty(st: AppState, c: Conflict<Faculty>, choice: Resolution, now: nat): (r: AppState)
    ensures choice == Overwrite ==> |r.faculties| == |st.faculties|
    ensures choice == CreateNew ==> |r.faculties| == |st.faculties| + 1
  {
    match choice
    case Overwrite => OverwriteFaculty(st, c)
    case CreateNew => CreateNewFaculty(st, c, now)
  }
}
