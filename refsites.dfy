/**
 * The places in the document that refer to other records ("reference sites"), each with a
 * descriptor saying what it refers to, by which key and in what shape, and what the
 * deleting, merging and canonicalising operations do to each of them.
 *
 * Most sites hold course, resource or faculty ids; prerequisites and co-requisites hold
 * course codes; the course-objective matrix holds `course|objective` keys whose first half
 * is a course id.
 */
module ReferenceSites {

  import opened Wrappers
  import opened Types
  import opened Seqs
  import Canonical
  import LibraryEditor
  import LibraryMerge
  import CourseMapping

  /** The kind of record a site refers to. */
  datatype Target = CourseRecord | ResourceRecord | FacultyRecord

  /** Which field of the target the reference holds. */
  datatype KeyKind = ById | ByCode

  /** How the reference is stored. */
  datatype Shape = Scalar | IdList | CompoundKey | MapKey

  datatype Descriptor = Descriptor(target: Target, key: KeyKind, shape: Shape)

  datatype Site =
    | SoMatrix          // courseSoMap[].courseId
    | PiMatrix          // coursePiMap[].courseId
    | PeoMatrix         // coursePeoMap[].courseId
    | MainLists         // programStructure.gen / fund / spec / grad
    | SubBlockMembers   // subBlocks[].courseIds
    | ObjectiveKeys     // the course half of courseObjectiveMap's `course|objective`
    | Prerequisites     // courses[].prerequisites
    | CoRequisites      // courses[].coRequisites
    | Textbooks         // courses[].textbooks[].resourceId
    | ReadingRefs       // courses[].topics[].readingRefs[].resourceId
    | InstructorList    // courses[].instructorIds
    | InstructorKeys    // the keys of courses[].instructorDetails

  function Describe(s: Site): (d: Descriptor)
    ensures d.key == ByCode <==> s == Prerequisites || s == CoRequisites
    ensures d.target == ResourceRecord <==> s == Textbooks || s == ReadingRefs
    ensures d.target == FacultyRecord <==> s == InstructorList || s == InstructorKeys
  {
    match s
    case SoMatrix => Descriptor(CourseRecord, ById, Scalar)
    case PiMatrix => Descriptor(CourseRecord, ById, Scalar)
    case PeoMatrix => Descriptor(CourseRecord, ById, Scalar)
    case MainLists => Descriptor(CourseRecord, ById, IdList)
    case SubBlockMembers => Descriptor(CourseRecord, ById, IdList)
    case ObjectiveKeys => Descriptor(CourseRecord, ById, CompoundKey)
    case Prerequisites => Descriptor(CourseRecord, ByCode, IdList)
    case CoRequisites => Descriptor(CourseRecord, ByCode, IdList)
    case Textbooks => Descriptor(ResourceRecord, ById, Scalar)
    case ReadingRefs => Descriptor(ResourceRecord, ById, Scalar)
    case InstructorList => Descriptor(FacultyRecord, ById, IdList)
    case InstructorKeys => Descriptor(FacultyRecord, ById, MapKey)
  }

  /** Sites stored inside course records (they travel with the course). */
  predicate InsideCourses(s: Site)
  {
    s == Prerequisites || s == CoRequisites || s == Textbooks || s == ReadingRefs
    || s == InstructorList || s == InstructorKeys
  }

  function StructureRefs(ps: ProgramStructure): set<string>
  {
    (set x | x in ps.gen) + (set x | x in ps.fund) + (set x | x in ps.spec) + (set x | x in ps.grad)
  }

  /** The references every course of a list holds at one of the sites inside courses. */
  function Gather(cs: seq<Course>, f: Course -> set<string>): set<string>
  {
    set c, x | c in cs && x in f(c) :: x
  }

  function PrerequisiteCodes(c: Course): set<string> { set p | p in c.prerequisites }
  function CoRequisiteCodes(c: Course): set<string> { set p | p in c.coRequisites }
  function TextbookIds(c: Course): set<string> { set tb | tb in c.textbooks :: tb.resourceId }
  function ReadingIds(c: Course): set<string>
  {
    set t, rr | t in c.topics && rr in t.readingRefs :: rr.resourceId
  }
  function InstructorIdsOf(c: Course): set<string> { set x | x in c.instructorIds }
  function InstructorKeysOf(c: Course): set<string> { c.instructorDetails.Keys }

  /** The references a site holds. */
  function Refs(st: AppState, s: Site): set<string>
  {
    match s
    case SoMatrix => set e | e in st.courseSoMap :: e.courseId
    case PiMatrix => set e | e in st.coursePiMap :: e.courseId
    case PeoMatrix => set e | e in st.coursePeoMap :: e.courseId
    case MainLists => StructureRefs(st.Moet().programStructure)
    case SubBlockMembers => set sb, x | sb in st.Moet().subBlocks && x in sb.courseIds :: x
    case ObjectiveKeys => set k | k in st.Moet().courseObjectiveMap :: Canonical.KeyCourse(k)
    case Prerequisites => Gather(st.courses, PrerequisiteCodes)
    case CoRequisites => Gather(st.courses, CoRequisiteCodes)
    case Textbooks => Gather(st.courses, TextbookIds)
    case ReadingRefs => Gather(st.courses, ReadingIds)
    case InstructorList => Gather(st.courses, InstructorIdsOf)
    case InstructorKeys => Gather(st.courses, InstructorKeysOf)
  }

  /** Two course lists whose courses hold, position by position, the same references at a
      site, or the same ones less `id`, hold the same references there, less `id`. */
  lemma GatherPointwise(cs: seq<Course>, rs: seq<Course>, f: Course -> set<string>, drop: set<string>)
    requires |rs| == |cs|
    requires forall i :: 0 <= i < |cs| ==> f(rs[i]) == f(cs[i]) - drop
    ensures Gather(rs, f) == Gather(cs, f) - drop
  {
    forall x | x in Gather(rs, f) ensures x in Gather(cs, f) - drop {
      var c :| c in rs && x in f(c);
      var i :| 0 <= i < |rs| && rs[i] == c;
      assert cs[i] in cs;
    }
    forall x | x in Gather(cs, f) - drop ensures x in Gather(rs, f) {
      var c :| c in cs && x in f(c);
      var i :| 0 <= i < |cs| && cs[i] == c;
      assert x in f(rs[i]);
      assert rs[i] in rs;
    }
  }

  /** The keys a site's references can resolve to. */
  function Universe(st: AppState, d: Descriptor): set<string>
  {
    match d.target
    case CourseRecord => if d.key == ById then CourseIds(st.courses) else set c | c in st.courses :: c.code
    case ResourceRecord => LibraryIds(st.library)
    case FacultyRecord => FacultyIds(st.faculties)
  }

  /** Every reference of the site names an existing record. */
  predicate Resolves(st: AppState, s: Site)
  {
    Refs(st, s) <= Universe(st, Describe(s))
  }

  // ---------------------------------------------------------------------------------------
  // Deleting a course

  /** `deleteCourse` touches no site outside the course records, so every such site that named
      the course keeps naming it and stops resolving. */
  lemma DeleteCourseSites(st: AppState, id: string, s: Site)
    requires !InsideCourses(s)
    ensures Refs(CourseMapping.DeleteCourse(st, id), s) == Refs(st, s)
    ensures id in Refs(st, s) ==> !Resolves(CourseMapping.DeleteCourse(st, id), s)
  {
    var r := CourseMapping.DeleteCourse(st, id);
    assert r.courseSoMap == st.courseSoMap && r.coursePiMap == st.coursePiMap && r.coursePeoMap == st.coursePeoMap;
    assert r.Moet() == st.Moet();
    assert Describe(s).target == CourseRecord && Describe(s).key == ById;
  }

  // ---------------------------------------------------------------------------------------
  // Deleting a resource

  /** `handleDelete` removes the resource from the library and from the textbook site, and
      leaves the reading-reference site as it was: a topic that cited the resource keeps a
      dangling reference. */
  lemma HandleDeleteSites(st: AppState, id: string)
    ensures var r := LibraryEditor.HandleDelete(st, id);
      && Refs(r, Textbooks) == Refs(st, Textbooks) - {id}
      && Refs(r, ReadingRefs) == Refs(st, ReadingRefs)
      && (Resolves(st, Textbooks) ==> Resolves(r, Textbooks))
      && (id in Refs(st, ReadingRefs) ==> !Resolves(r, ReadingRefs))
  {
    var r := LibraryEditor.HandleDelete(st, id);
    CitationsRemoved(st.courses, r.courses, id);
    assert LibraryIds(r.library) == LibraryIds(st.library) - {id};
  }

  /** Courses that lost their textbook entries for `id`, and nothing else, hold the textbook
      references they held less `id`, and the same reading references. */
  lemma CitationsRemoved(cs: seq<Course>, rs: seq<Course>, id: string)
    requires |rs| == |cs|
    requires forall i :: 0 <= i < |cs| ==> rs[i] == LibraryEditor.RemoveCitations(cs[i], id)
    ensures Gather(rs, TextbookIds) == Gather(cs, TextbookIds) - {id}
    ensures Gather(rs, ReadingIds) == Gather(cs, ReadingIds)
  {
    forall i | 0 <= i < |cs| ensures TextbookIds(rs[i]) == TextbookIds(cs[i]) - {id} {
      forall x | x in TextbookIds(cs[i]) - {id} ensures x in TextbookIds(rs[i]) {
        var tb :| tb in cs[i].textbooks && tb.resourceId == x;
        assert tb in rs[i].textbooks;
      }
    }
    GatherPointwise(cs, rs, TextbookIds, {id});
    GatherPointwise(cs, rs, ReadingIds, {});
  }

  // ---------------------------------------------------------------------------------------
  // Merging duplicate resources

  /** A document whose library and textbook lists name no retired id, and whose topics are
      those of `st`, keeps `st`'s reading references. */
  lemma RetiredGone(st: AppState, r: AppState, retired: seq<string>)
    requires forall x :: x in r.library ==> x.id !in retired
    requires |r.courses| == |st.courses|
    requires forall i :: 0 <= i < |r.courses| ==>
      && r.courses[i].topics == st.courses[i].topics
      && (forall t :: t in r.courses[i].textbooks ==> t.resourceId !in retired)
    ensures forall x :: x in Refs(r, Textbooks) ==> x !in retired
    ensures forall x :: x in Universe(r, Describe(Textbooks)) ==> x !in retired
    ensures Refs(r, ReadingRefs) == Refs(st, ReadingRefs)
  {
    forall i | 0 <= i < |r.courses| ensures ReadingIds(r.courses[i]) == ReadingIds(st.courses[i]) - {} {
    }
    GatherPointwise(st.courses, r.courses, ReadingIds, {});
    forall x | x in Refs(r, Textbooks) ensures x !in retired {
      var c :| c in r.courses && x in TextbookIds(c);
      var i :| 0 <= i < |r.courses| && r.courses[i] == c;
      var tb :| tb in c.textbooks && tb.resourceId == x;
    }
  }

  /** `mergeLibraryGroup` leaves no retired id at the textbook site or in the library, and does
      not touch the reading-reference site. */
  lemma MergeSites(st: AppState, group: seq<LibraryResource>, target: string)
    ensures var r := LibraryMerge.MergeIntoTarget(st, group, target);
      var retired := LibraryMerge.RetiredIds(group, target);
      && (forall x :: x in Refs(r, Textbooks) ==> x !in retired)
      && (forall x :: x in Universe(r, Describe(Textbooks)) ==> x !in retired)
      && Refs(r, ReadingRefs) == Refs(st, ReadingRefs)
  {
    LibraryMerge.MergeIntoTargetFacts(st, group, target);
    RetiredGone(st, LibraryMerge.MergeIntoTarget(st, group, target), LibraryMerge.RetiredIds(group, target));
  }

  // ---------------------------------------------------------------------------------------
  // Canonicalisation

  /** Join tables, main lists and instructor references that name existing records resolve. */
  lemma ResolvingSites(r: AppState)
    requires forall e :: e in r.courseSoMap ==> e.courseId in CourseIds(r.courses)
    requires forall e :: e in r.coursePiMap ==> e.courseId in CourseIds(r.courses)
    requires forall e :: e in r.coursePeoMap ==> e.courseId in CourseIds(r.courses)
    requires forall b: Block, x :: x in r.Moet().programStructure.Get(b) ==> x in CourseIds(r.courses)
    requires forall c, x :: c in r.courses && x in c.instructorIds ==> x in FacultyIds(r.faculties)
    requires forall c, x :: c in r.courses && x in c.instructorDetails ==> x in FacultyIds(r.faculties)
    ensures Resolves(r, SoMatrix) && Resolves(r, PiMatrix) && Resolves(r, PeoMatrix)
    ensures Resolves(r, MainLists) && Resolves(r, InstructorList) && Resolves(r, InstructorKeys)
  {
    var ps := r.Moet().programStructure;
    assert ps.Get(Gen) == ps.gen && ps.Get(Fund) == ps.fund && ps.Get(Spec) == ps.spec && ps.Get(Grad) == ps.grad;
  }

  /** After `normalizeData` the join tables, the main lists and the instructor references all
      resolve. */
  lemma NormalizeDataResolvesSites(st: AppState)
    ensures var r := Canonical.NormalizeData(st);
      && Resolves(r, SoMatrix) && Resolves(r, PiMatrix) && Resolves(r, PeoMatrix)
      && Resolves(r, MainLists) && Resolves(r, InstructorList) && Resolves(r, InstructorKeys)
  {
    Canonical.NormalizeDataResolvesJoins(st);
    Canonical.NormalizeDataResolvesStructure(st);
    Canonical.NormalizeDataResolvesInstructors(st);
    ResolvingSites(Canonical.NormalizeData(st));
  }

  /** Course lists that differ, position by position, only in ids and instructor references
      hold the same prerequisite codes, co-requisite codes and resource references. */
  lemma SameCourseSites(cs: seq<Course>, rs: seq<Course>)
    requires |rs| == |cs|
    requires forall i :: 0 <= i < |cs| ==>
      rs[i] == cs[i].(id := rs[i].id, instructorIds := rs[i].instructorIds, instructorDetails := rs[i].instructorDetails)
    ensures Gather(rs, PrerequisiteCodes) == Gather(cs, PrerequisiteCodes)
    ensures Gather(rs, CoRequisiteCodes) == Gather(cs, CoRequisiteCodes)
    ensures Gather(rs, TextbookIds) == Gather(cs, TextbookIds)
    ensures Gather(rs, ReadingIds) == Gather(cs, ReadingIds)
  {
    GatherPointwise(cs, rs, PrerequisiteCodes, {});
    GatherPointwise(cs, rs, CoRequisiteCodes, {});
    GatherPointwise(cs, rs, TextbookIds, {});
    GatherPointwise(cs, rs, ReadingIds, {});
  }

  /** A document whose sub-blocks are `st`'s and whose courses differ from `st`'s only in ids and
      instructor references holds `st`'s sub-block, prerequisite, co-requisite and resource
      references. */
  lemma KeptSites(st: AppState, r: AppState)
    requires r.Moet().subBlocks == st.Moet().subBlocks
    requires |r.courses| == |st.courses|
    requires forall i :: 0 <= i < |st.courses| ==>
      r.courses[i] == st.courses[i].(id := r.courses[i].id, instructorIds := r.courses[i].instructorIds,
                                     instructorDetails := r.courses[i].instructorDetails)
    ensures Refs(r, SubBlockMembers) == Refs(st, SubBlockMembers)
    ensures Refs(r, Prerequisites) == Refs(st, Prerequisites)
    ensures Refs(r, CoRequisites) == Refs(st, CoRequisites)
    ensures Refs(r, Textbooks) == Refs(st, Textbooks)
    ensures Refs(r, ReadingRefs) == Refs(st, ReadingRefs)
  {
    SameCourseSites(st.courses, r.courses);
  }

  /** `normalizeData` leaves the sub-block lists, the prerequisite and co-requisite codes and
      the resource references as they were. */
  lemma NormalizeDataKeepsSites(st: AppState)
    ensures var r := Canonical.NormalizeData(st);
      && Refs(r, SubBlockMembers) == Refs(st, SubBlockMembers)
      && Refs(r, Prerequisites) == Refs(st, Prerequisites)
      && Refs(r, CoRequisites) == Refs(st, CoRequisites)
      && Refs(r, Textbooks) == Refs(st, Textbooks)
      && Refs(r, ReadingRefs) == Refs(st, ReadingRefs)
  {
    Canonical.NormalizeDataFrame(st);
    Canonical.NormalizeDataCourseRecords(st);
    KeptSites(st, Canonical.NormalizeData(st));
  }
}
