/**
 * The program document edited by the application (`AppState` and the records it holds).
 * Every operation of the model is a function from one document value to the next.
 * Field names follow the source; `type` is a keyword here and is spelled `kind`.
 */
module Types {

  import opened Wrappers

  datatype Language = Vi | En

  datatype LocalizedString = LocalizedString(vi: string, en: string)
  {
    /** `ls[lang]`. */
    function Get(lang: Language): string
    {
      match lang
      case Vi => vi
      case En => en
    }
  }

  const EmptyText := LocalizedString("", "")

  datatype Role = Admin | User

  datatype UserAccount = UserAccount(id: string, email: string, name: string, avatar: Option<string>,
                                     role: Role, lastLogin: string)

  datatype MissionConstituent = MissionConstituent(id: string, description: LocalizedString)
  datatype Mission = Mission(text: LocalizedString, constituents: seq<MissionConstituent>)

  datatype PEO = PEO(id: string, code: string, title: LocalizedString, description: LocalizedString)
  datatype PI = PI(id: string, code: string, description: LocalizedString)
  datatype SO = SO(id: string, number: int, code: string, description: LocalizedString, pis: seq<PI>)
  datatype KnowledgeArea = KnowledgeArea(id: string, name: LocalizedString, color: string)

  /** A library resource is either a textbook or a reference. */
  datatype ResourceType = TextbookType | ReferenceType

  /** A course's textbook entry: a copy of a library resource, linked by `resourceId`. */
  datatype Textbook = Textbook(resourceId: string, title: string, author: string, publisher: string,
                               year: string, kind: ResourceType, url: Option<string>)

  datatype TopicActivity = TopicActivity(methodId: string, hours: nat)
  datatype TopicReading = TopicReading(resourceId: string, pageRange: string)
  datatype CourseTopic = CourseTopic(id: string, no: string, topic: LocalizedString,
                                     activities: seq<TopicActivity>, readingRefs: seq<TopicReading>)

  datatype AssessmentItem = AssessmentItem(id: string, methodId: string, kind: LocalizedString, percentile: int)

  /** `CoverageLevel`: NONE is the empty string in the source. */
  datatype CoverageLevel = CoverageNone | CoverageI | CoverageR | CoverageM

  datatype CloMapping = CloMapping(cloIndex: int, topicIds: seq<string>, teachingMethodIds: seq<string>,
                                   assessmentMethodIds: seq<string>, coverageLevel: CoverageLevel,
                                   soIds: seq<string>, piIds: Option<seq<string>>)

  datatype CourseType = Required | SelectedElective | Elective

  datatype InstructorDetail = InstructorDetail(classInfo: string, isMain: Option<bool>)

  datatype Clos = Clos(vi: seq<string>, en: seq<string>)

  /** A course. `prerequisites` and `coRequisites` hold course CODES, not ids. */
  datatype Course = Course(
    id: string,
    code: string,
    name: LocalizedString,
    credits: int,
    isEssential: bool,
    isAbet: Option<bool>,
    kind: CourseType,
    knowledgeAreaId: string,
    semester: int,
    colIndex: int,
    prerequisites: seq<string>,
    coRequisites: seq<string>,
    description: LocalizedString,
    textbooks: seq<Textbook>,
    clos: Clos,
    topics: seq<CourseTopic>,
    assessmentPlan: seq<AssessmentItem>,
    instructorIds: seq<string>,
    instructorDetails: map<string, InstructorDetail>,
    cloMap: seq<CloMapping>)

  /** A faculty member's CV. The many CV sections (education, experience, publications, ...)
      are not inspected by any operation and are kept together in `cvSections`. */
  datatype Faculty = Faculty(
    id: string,
    name: LocalizedString,
    rank: LocalizedString,
    degree: LocalizedString,
    academicTitle: LocalizedString,
    position: LocalizedString,
    experience: LocalizedString,
    workload: int,
    email: string,
    cvSections: seq<LocalizedString>)

  datatype FacultyTitle = FacultyTitle(id: string, name: LocalizedString)
  datatype FacultyTitles = FacultyTitles(ranks: seq<FacultyTitle>, degrees: seq<FacultyTitle>,
                                         academicTitles: seq<FacultyTitle>, positions: seq<FacultyTitle>)

  datatype TeachingMethod = TeachingMethod(id: string, code: string, name: LocalizedString, hoursPerCredit: nat)
  datatype AssessmentMethod = AssessmentMethod(id: string, name: LocalizedString)

  datatype MoetCategory = Knowledge | Skills | Attitude | Learning

  /** A specific program objective; a missing `soIds` / `peoIds` list is the empty list. */
  datatype MoetObjective = MoetObjective(id: string, category: Option<MoetCategory>,
                                         description: LocalizedString, peoIds: seq<string>, soIds: seq<string>)

  /** The four main lists of the program structure. */
  datatype Block = Gen | Fund | Spec | Grad

  datatype ProgramStructure = ProgramStructure(gen: seq<string>, fund: seq<string>, spec: seq<string>, grad: seq<string>)
  {
    /** `programStructure[block]`. */
    function Get(b: Block): seq<string>
    {
      match b
      case Gen => gen
      case Fund => fund
      case Spec => spec
      case Grad => grad
    }

    /** `{ ...programStructure, [block]: list }`. */
    function Set(b: Block, list: seq<string>): (r: ProgramStructure)
      ensures r.Get(b) == list
      ensures forall o :: o != b ==> r.Get(o) == Get(o)
    {
      match b
      case Gen => this.(gen := list)
      case Fund => this.(fund := list)
      case Spec => this.(spec := list)
      case Grad => this.(grad := list)
    }
  }

  const EmptyStructure := ProgramStructure([], [], [], [])

  /** An elective sub-block hanging under one of the main blocks. */
  datatype SubBlock = SubBlock(id: string, name: LocalizedString, parentBlockId: Block, minCredits: int,
                               courseIds: seq<string>, note: Option<LocalizedString>)

  /** The national (MOET) program description. Descriptive text fields that no operation of
      the model inspects (level, training mode, admission, grading, ...) are kept in `texts`. */
  datatype MoetInfo = MoetInfo(
    majorCode: string,
    specializationName: LocalizedString,
    generalObjectives: LocalizedString,
    specificObjectives: seq<MoetObjective>,
    programStructure: ProgramStructure,
    subBlocks: seq<SubBlock>,
    courseObjectiveMap: seq<string>,
    texts: map<string, LocalizedString>)

  datatype PreviousEvaluations = PreviousEvaluations(weaknesses: LocalizedString, actions: LocalizedString,
                                                     status: LocalizedString)

  /** General program information. Fields no operation inspects are kept in `texts`. */
  datatype GeneralInfo = GeneralInfo(
    history: LocalizedString,
    contact: LocalizedString,
    deliveryModes: LocalizedString,
    locations: LocalizedString,
    previousEvaluations: PreviousEvaluations,
    moetInfo: MoetInfo,
    texts: map<string, LocalizedString>)

  datatype LibraryResource = LibraryResource(id: string, title: string, author: string, publisher: string,
                                             year: string, kind: ResourceType, isEbook: bool, isPrinted: bool,
                                             url: Option<string>)

  datatype GeminiConfig = GeminiConfig(model: string, apiKey: Option<string>, prompts: map<string, string>)

  /** Matrix levels: I, R, M or none. */
  datatype Irm = IrmNone | IrmI | IrmR | IrmM

  datatype CourseSo = CourseSo(courseId: string, soId: string, level: Irm)
  datatype CoursePi = CoursePi(courseId: string, piId: string)
  datatype CoursePeo = CoursePeo(courseId: string, peoId: string)
  datatype PeoSo = PeoSo(peoId: string, soId: string)
  datatype PeoConstituent = PeoConstituent(peoId: string, constituentId: string)

  /** The whole program document. */
  datatype AppState = AppState(
    language: Language,
    authEnabled: bool,
    currentUser: Option<UserAccount>,
    users: seq<UserAccount>,
    mission: Mission,
    peos: seq<PEO>,
    sos: seq<SO>,
    courses: seq<Course>,
    faculties: seq<Faculty>,
    knowledgeAreas: seq<KnowledgeArea>,
    teachingMethods: seq<TeachingMethod>,
    assessmentMethods: seq<AssessmentMethod>,
    facultyTitles: FacultyTitles,
    geminiConfig: GeminiConfig,
    generalInfo: GeneralInfo,
    library: seq<LibraryResource>,
    courseSoMap: seq<CourseSo>,
    coursePiMap: seq<CoursePi>,
    coursePeoMap: seq<CoursePeo>,
    peoSoMap: seq<PeoSo>,
    peoConstituentMap: seq<PeoConstituent>)
  {
    function Moet(): MoetInfo { generalInfo.moetInfo }

    /** The document with a new MOET section (`updateMoetField` and friends). */
    function WithMoet(m: MoetInfo): (r: AppState)
      ensures r.Moet() == m
    {
      this.(generalInfo := generalInfo.(moetInfo := m))
    }
  }

  /** Ids of a course list. */
  function CourseIds(cs: seq<Course>): (r: set<string>)
    ensures forall c :: c in cs ==> c.id in r
    ensures forall x :: x in r ==> exists c :: c in cs && c.id == x
  {
    set c | c in cs :: c.id
  }

  function LibraryIds(lib: seq<LibraryResource>): (r: set<string>)
    ensures forall x :: x in lib ==> x.id in r
    ensures forall i :: i in r ==> exists x :: x in lib && x.id == i
  {
    set x | x in lib :: x.id
  }

  function FacultyIds(fs: seq<Faculty>): (r: set<string>)
    ensures forall f :: f in fs ==> f.id in r
    ensures forall i :: i in r ==> exists f :: f in fs && f.id == i
  {
    set f | f in fs :: f.id
  }

  /** `courses.map(c => c.id === id ? f(c) : c)` -- the shape of most course updates. */
  function MapCourseWithId(cs: seq<Course>, id: string, f: Course -> Course): (r: seq<Course>)
    ensures |r| == |cs|
    ensures forall i :: 0 <= i < |cs| ==> r[i] == if cs[i].id == id then f(cs[i]) else cs[i]
  {
    seq(|cs|, i requires 0 <= i < |cs| => if cs[i].id == id then f(cs[i]) else cs[i])
  }

  /** `courses.map(c => c.id === id ? { ...c, type: t } : c)`. */
  function SetCourseType(cs: seq<Course>, id: string, t: CourseType): (r: seq<Course>)
    ensures |r| == |cs|
    ensures forall i :: 0 <= i < |cs| ==> r[i] == if cs[i].id == id then cs[i].(kind := t) else cs[i]
  {
    MapCourseWithId(cs, id, (c: Course) => c.(kind := t))
  }
}
