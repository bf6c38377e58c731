/**
 * A course splits into its catalog record (the fields the program structure and the catalog
 * own) and its syllabus content (everything a syllabus import may replace). Overwriting a
 * course from an imported syllabus keeps the catalog half of the existing course.
 */
module CourseFields {

  import opened Wrappers
  import opened Types

  /** The protected catalog fields: id, code, name, credits, semester, type, prerequisites,
      co-requisites, isEssential, isAbet and knowledge area. */
  datatype Catalog = Catalog(id: string, code: string, name: LocalizedString, credits: int, semester: int,
                             kind: CourseType, prerequisites: seq<string>, coRequisites: seq<string>,
                             isEssential: bool, isAbet: Option<bool>, knowledgeAreaId: string)

  /** Everything else a course carries. */
  datatype Content = Content(colIndex: int, description: LocalizedString, textbooks: seq<Textbook>, clos: Clos,
                             topics: seq<CourseTopic>, assessmentPlan: seq<AssessmentItem>,
                             instructorIds: seq<string>, instructorDetails: map<string, InstructorDetail>,
                             cloMap: seq<CloMapping>)

  function CatalogOf(c: Course): Catalog
  {
    Catalog(c.id, c.code, c.name, c.credits, c.semester, c.kind, c.prerequisites, c.coRequisites,
            c.isEssential, c.isAbet, c.knowledgeAreaId)
  }

  function ContentOf(c: Course): Content
  {
    Content(c.colIndex, c.description, c.textbooks, c.clos, c.topics, c.assessmentPlan,
            c.instructorIds, c.instructorDetails, c.cloMap)
  }

  /** The course made of a catalog record and a syllabus content. */
  function Assemble(k: Catalog, t: Content): (c: Course)
    ensures CatalogOf(c) == k && ContentOf(c) == t
  {
    Course(k.id, k.code, k.name, k.credits, k.isEssential, k.isAbet, k.kind, k.knowledgeAreaId, k.semester,
           t.colIndex, k.prerequisites, k.coRequisites, t.description, t.textbooks, t.clos, t.topics,
           t.assessmentPlan, t.instructorIds, t.instructorDetails, t.cloMap)
  }

  /** The two halves determine the course. */
  lemma AssembleParts(c: Course)
    ensures Assemble(CatalogOf(c), ContentOf(c)) == c
  {
  }

  /** `{ ...incoming, id: ex.id, code: ex.code, ... knowledgeAreaId: ex.knowledgeAreaId }`:
      the existing catalog record with the incoming syllabus content. */
  function PreserveCatalog(existing: Course, incoming: Course): (r: Course)
    ensures CatalogOf(r) == CatalogOf(existing)
    ensures ContentOf(r) == ContentOf(incoming)
  {
    Assemble(CatalogOf(existing), ContentOf(incoming))
  }

  /** Overwriting with a course's own content changes nothing, and a second overwrite with
      the same incoming record changes nothing more. */
  lemma PreserveCatalogLaws(existing: Course, incoming: Course)
    ensures PreserveCatalog(existing, existing) == existing
    ensures PreserveCatalog(PreserveCatalog(existing, incoming), incoming) == PreserveCatalog(existing, incoming)
  {
    AssembleParts(existing);
  }

  /** The syllabus fields of a pasted JSON record, each present or absent. The catalog fields
      such a record may carry are always overridden, so they are not part of it. */
  datatype PastedSyllabus = PastedSyllabus(colIndex: Option<int>, description: Option<LocalizedString>,
                                           textbooks: Option<seq<Textbook>>, clos: Option<Clos>,
                                           topics: Option<seq<CourseTopic>>,
                                           assessmentPlan: Option<seq<AssessmentItem>>,
                                           instructorIds: Option<seq<string>>,
                                           instructorDetails: Option<map<string, InstructorDetail>>,
                                           cloMap: Option<seq<CloMapping>>)

  /** A record that carries every syllabus field, with the values of `t`. */
  function Complete(t: Content): PastedSyllabus
  {
    PastedSyllabus(Some(t.colIndex), Some(t.description), Some(t.textbooks), Some(t.clos), Some(t.topics),
                   Some(t.assessmentPlan), Some(t.instructorIds), Some(t.instructorDetails), Some(t.cloMap))
  }

  /** A record that carries no syllabus field. */
  const NothingPasted := PastedSyllabus(None, None, None, None, None, None, None, None, None)

  /** `{ ...c, ...updates }` on the syllabus half: a field the record carries replaces the
      course's, a field it lacks keeps the course's value. */
  function PastedOver(t: Content, p: PastedSyllabus): Content
  {
    Content(p.colIndex.GetOr(t.colIndex), p.description.GetOr(t.description), p.textbooks.GetOr(t.textbooks),
            p.clos.GetOr(t.clos), p.topics.GetOr(t.topics), p.assessmentPlan.GetOr(t.assessmentPlan),
            p.instructorIds.GetOr(t.instructorIds), p.instructorDetails.GetOr(t.instructorDetails),
            p.cloMap.GetOr(t.cloMap))
  }

  /** A complete record replaces the whole syllabus, an empty one changes nothing, pasting
      the same record twice is pasting it once. */
  lemma {:induction false} PastedOverLaws(t: Content, u: Content, p: PastedSyllabus)
    ensures PastedOver(u, Complete(t)) == t
    ensures PastedOver(t, NothingPasted) == t
    ensures PastedOver(PastedOver(t, p), p) == PastedOver(t, p)
  {
  }
}
