/**
 * The settings screen's data operations: reading a document from a file (filling in the
 * defaults an older or partial file lacks), importing the selected sections of such a
 * document into the current one, and clearing the design data.
 */
module SettingsImport {

  import opened Wrappers
  import opened Types

  // ---------------------------------------------------------------------------------------
  // Reading a file

  /** A CLO mapping as read from a file: `piIds` may be missing or not a list. */
  datatype RawCloMapping = RawCloMapping(fields: CloMapping, piIds: Option<seq<string>>)

  /** A course as read from a file. `fields` carries what the reader copies unchanged; the
      other components may be missing (`credits` also when it is not a number). */
  datatype RawCourse = RawCourse(fields: Course, credits: Option<int>, isEssential: Option<bool>,
                                 isAbet: Option<bool>, instructorDetails: Option<map<string, InstructorDetail>>,
                                 cloMap: Option<seq<RawCloMapping>>, textbooks: Option<seq<Textbook>>,
                                 topics: Option<seq<CourseTopic>>, assessmentPlan: Option<seq<AssessmentItem>>)

  /** The AI settings as read from a file: each key may be missing. */
  datatype RawGemini = RawGemini(model: Option<string>, apiKey: Option<Option<string>>,
                                 prompts: Option<map<string, string>>)

  /** A document as read from a file: every top-level key may be missing or of the wrong kind. */
  datatype RawData = RawData(
    language: Option<Language>,
    authEnabled: Option<bool>,
    users: Option<seq<UserAccount>>,
    mission: Option<Mission>,
    peos: Option<seq<PEO>>,
    sos: Option<seq<SO>>,
    courses: Option<seq<RawCourse>>,
    faculties: Option<seq<Faculty>>,
    knowledgeAreas: Option<seq<KnowledgeArea>>,
    teachingMethods: Option<seq<TeachingMethod>>,
    assessmentMethods: Option<seq<AssessmentMethod>>,
    facultyTitles: Option<FacultyTitles>,
    geminiConfig: RawGemini,
    generalInfo: Option<GeneralInfo>,
    library: Option<seq<LibraryResource>>,
    courseSoMap: Option<seq<CourseSo>>,
    coursePiMap: Option<seq<CoursePi>>,
    coursePeoMap: Option<seq<CoursePeo>>,
    peoSoMap: Option<seq<PeoSo>>,
    peoConstituentMap: Option<seq<PeoConstituent>>)

  /** A course as the reader produces it: the ABET flag is set and every CLO mapping has
      its PI list. */
  predicate IsNormalCourse(c: Course)
  {
    c.isAbet.Some? && forall m :: m in c.cloMap ==> m.piIds.Some?
  }

  /** `{ ...cm, piIds: Array.isArray(cm.piIds) ? cm.piIds : [] }`. */
  function NormalizeCloMapping(m: RawCloMapping): (r: CloMapping)
    ensures r.piIds.Some?
    ensures m.piIds.Some? ==> r.piIds == m.piIds
    ensures m.piIds.None? ==> r.piIds == Some([])
    ensures r.(piIds := m.fields.piIds) == m.fields
  {
    m.fields.(piIds := Some(m.piIds.GetOr([])))
  }

  /** One course with its defaults: credits 0, `isEssential` false, `isAbet` following
      `isEssential`, empty details, lists and CLO map. */
  function NormalizeCourse(c: RawCourse): (r: Course)
    ensures IsNormalCourse(r)
    ensures r.credits == c.credits.GetOr(0)
    ensures r.isEssential == c.isEssential.GetOr(false)
    ensures r.isAbet == Some(c.isAbet.GetOr(r.isEssential))
    ensures r.instructorDetails == c.instructorDetails.GetOr(map[])
    ensures r.textbooks == c.textbooks.GetOr([]) && r.topics == c.topics.GetOr([])
    ensures r.assessmentPlan == c.assessmentPlan.GetOr([])
    ensures c.cloMap.None? ==> r.cloMap == []
    ensures c.cloMap.Some? ==>
              |r.cloMap| == |c.cloMap.value| &&
              forall i :: 0 <= i < |r.cloMap| ==> r.cloMap[i] == NormalizeCloMapping(c.cloMap.value[i])
    ensures r == c.fields.(credits := r.credits, isEssential := r.isEssential, isAbet := r.isAbet,
                           instructorDetails := r.instructorDetails, cloMap := r.cloMap,
                           textbooks := r.textbooks, topics := r.topics, assessmentPlan := r.assessmentPlan)
  {
    var essential := c.isEssential.GetOr(false);
    var cloMap := match c.cloMap
      case None => []
      case Some(ms) => seq(|ms|, i requires 0 <= i < |ms| => NormalizeCloMapping(ms[i]));
    c.fields.(credits := c.credits.GetOr(0), isEssential := essential, isAbet := Some(c.isAbet.GetOr(essential)),
              instructorDetails := c.instructorDetails.GetOr(map[]), cloMap := cloMap,
              textbooks := c.textbooks.GetOr([]), topics := c.topics.GetOr([]),
              assessmentPlan := c.assessmentPlan.GetOr([]))
  }

  /** `{ ...base.geminiConfig, ...(data.geminiConfig || {}) }`. */
  function MergeGemini(base: GeminiConfig, g: RawGemini): (r: GeminiConfig)
    ensures r.model == g.model.GetOr(base.model)
    ensures r.apiKey == g.apiKey.GetOr(base.apiKey)
    ensures r.prompts == g.prompts.GetOr(base.prompts)
  {
    GeminiConfig(g.model.GetOr(base.model), g.apiKey.GetOr(base.apiKey), g.prompts.GetOr(base.prompts))
  }

  /** `normalizeIncomingData`: the file's content over the initial document `init`. Design
      lists (strategy, courses, faculty, library, matrices) default to empty, catalogues
      and settings to the initial document's, and the session user is never taken from
      the file. */
  function NormalizeIncomingData(init: AppState, data: RawData): (r: AppState)
    ensures r.currentUser == init.currentUser
    ensures r.language == data.language.GetOr(En)
    ensures data.courses.None? ==> r.courses == []
    ensures data.courses.Some? ==>
              |r.courses| == |data.courses.value| &&
              forall i :: 0 <= i < |r.courses| ==> r.courses[i] == NormalizeCourse(data.courses.value[i])
    ensures forall c :: c in r.courses ==> IsNormalCourse(c)
    ensures r.peos == data.peos.GetOr([]) && r.sos == data.sos.GetOr([])
    ensures r.faculties == data.faculties.GetOr([]) && r.library == data.library.GetOr([])
    ensures r.courseSoMap == data.courseSoMap.GetOr([]) && r.coursePiMap == data.coursePiMap.GetOr([])
    ensures r.coursePeoMap == data.coursePeoMap.GetOr([]) && r.peoSoMap == data.peoSoMap.GetOr([])
    ensures r.peoConstituentMap == data.peoConstituentMap.GetOr([])
    ensures r.users == data.users.GetOr(init.users) && r.mission == data.mission.GetOr(init.mission)
    ensures r.knowledgeAreas == data.knowledgeAreas.GetOr(init.knowledgeAreas)
    ensures r.teachingMethods == data.teachingMethods.GetOr(init.teachingMethods)
    ensures r.assessmentMethods == data.assessmentMethods.GetOr(init.assessmentMethods)
    ensures r.facultyTitles == data.facultyTitles.GetOr(init.facultyTitles)
    ensures r.authEnabled == data.authEnabled.GetOr(init.authEnabled)
    ensures r.generalInfo == data.generalInfo.GetOr(init.generalInfo)
    ensures r.geminiConfig == MergeGemini(init.geminiConfig, data.geminiConfig)
  {
    var courses := match data.courses
      case None => []
      case Some(cs) => seq(|cs|, i requires 0 <= i < |cs| => NormalizeCourse(cs[i]));
    assert forall c :: c in courses ==> IsNormalCourse(c);
    AppState(data.language.GetOr(En), data.authEnabled.GetOr(init.authEnabled), init.currentUser,
             data.users.GetOr(init.users), data.mission.GetOr(init.mission),
             data.peos.GetOr([]), data.sos.GetOr([]), courses, data.faculties.GetOr([]),
             data.knowledgeAreas.GetOr(init.knowledgeAreas), data.teachingMethods.GetOr(init.teachingMethods),
             data.assessmentMethods.GetOr(init.assessmentMethods), data.facultyTitles.GetOr(init.facultyTitles),
             MergeGemini(init.geminiConfig, data.geminiConfig), data.generalInfo.GetOr(init.generalInfo),
             data.library.GetOr([]), data.courseSoMap.GetOr([]), data.coursePiMap.GetOr([]),
             data.coursePeoMap.GetOr([]), data.peoSoMap.GetOr([]), data.peoConstituentMap.GetOr([]))
  }

  /** A course written out in full. */
  function CourseAsRaw(c: Course): RawCourse
  {
    RawCourse(c, Some(c.credits), Some(c.isEssential), c.isAbet, Some(c.instructorDetails),
              Some(seq(|c.cloMap|, i requires 0 <= i < |c.cloMap| => RawCloMapping(c.cloMap[i], c.cloMap[i].piIds))),
              Some(c.textbooks), Some(c.topics), Some(c.assessmentPlan))
  }

  /** A document written out in full (every key present). */
  function AsRaw(st: AppState): RawData
  {
    RawData(Some(st.language), Some(st.authEnabled), Some(st.users), Some(st.mission), Some(st.peos),
            Some(st.sos), Some(seq(|st.courses|, i requires 0 <= i < |st.courses| => CourseAsRaw(st.courses[i]))),
            Some(st.faculties), Some(st.knowledgeAreas), Some(st.teachingMethods), Some(st.assessmentMethods),
            Some(st.facultyTitles),
            RawGemini(Some(st.geminiConfig.model), Some(st.geminiConfig.apiKey), Some(st.geminiConfig.prompts)),
            Some(st.generalInfo), Some(st.library), Some(st.courseSoMap), Some(st.coursePiMap),
            Some(st.coursePeoMap), Some(st.peoSoMap), Some(st.peoConstituentMap))
  }

  /** A course the reader produced reads back as itself. */
  lemma NormalizeCourseRoundTrip(c: Course)
    requires IsNormalCourse(c)
    ensures NormalizeCourse(CourseAsRaw(c)) == c
  {
    var r := NormalizeCourse(CourseAsRaw(c));
    assert r.cloMap == c.cloMap by {
      forall i | 0 <= i < |c.cloMap| ensures r.cloMap[i] == c.cloMap[i] {
        assert c.cloMap[i] in c.cloMap;
      }
    }
  }

  /** Reading a course twice gives what reading it once gave. */
  lemma NormalizeCourseIdempotent(c: RawCourse)
    ensures NormalizeCourse(CourseAsRaw(NormalizeCourse(c))) == NormalizeCourse(c)
  {
    NormalizeCourseRoundTrip(NormalizeCourse(c));
  }

  /** A document whose courses are in normal form, written out in full and read back, is
      itself apart from the session user, which stays the current one. */
  lemma NormalizeIncomingRoundTrip(init: AppState, st: AppState)
    requires forall c :: c in st.courses ==> IsNormalCourse(c)
    ensures NormalizeIncomingData(init, AsRaw(st)) == st.(currentUser := init.currentUser)
  {
    var r := NormalizeIncomingData(init, AsRaw(st));
    assert r.courses == st.courses by {
      forall i | 0 <= i < |st.courses| ensures r.courses[i] == st.courses[i] {
        NormalizeCourseRoundTrip(st.courses[i]);
      }
    }
  }

  // ---------------------------------------------------------------------------------------
  // Importing selected sections

  /** The check boxes of the import dialog. */
  datatype ImportOptions = ImportOptions(general: bool, strategy: bool, courses: bool, faculty: bool,
                                         matrices: bool, settings: bool)

  /** The document after `confirmImport`: each field from `pending` when the section that
      holds it is selected, from `prev` otherwise; the settings section keeps `prev`'s API
      key, and the language and session user belong to no section. */
  function Imported(prev: AppState, pending: AppState, o: ImportOptions): AppState
  {
    var g, t, c, f, m, s := o.general, o.strategy, o.courses, o.faculty, o.matrices, o.settings;
    AppState(
      prev.language,
      if s then pending.authEnabled else prev.authEnabled,
      prev.currentUser,
      if s then pending.users else prev.users,
      if g then pending.mission else prev.mission,
      if t then pending.peos else prev.peos,
      if t then pending.sos else prev.sos,
      if c then pending.courses else prev.courses,
      if f then pending.faculties else prev.faculties,
      if c then pending.knowledgeAreas else prev.knowledgeAreas,
      if c then pending.teachingMethods else prev.teachingMethods,
      if c then pending.assessmentMethods else prev.assessmentMethods,
      if f then pending.facultyTitles else prev.facultyTitles,
      if s then pending.geminiConfig.(apiKey := prev.geminiConfig.apiKey) else prev.geminiConfig,
      if g then pending.generalInfo else prev.generalInfo,
      if g then pending.library else prev.library,
      if m then pending.courseSoMap else prev.courseSoMap,
      if m then pending.coursePiMap else prev.coursePiMap,
      if m then pending.coursePeoMap else prev.coursePeoMap,
      if m then pending.peoSoMap else prev.peoSoMap,
      if m then pending.peoConstituentMap else prev.peoConstituentMap)
  }

  /** `confirmImport`: `nextState` built field by field. */
  method ConfirmImport(prev: AppState, pending: AppState, o: ImportOptions) returns (next: AppState)
    ensures next == Imported(prev, pending, o)
  {
    next := prev;
    if o.general {
      next := next.(generalInfo := pending.generalInfo);
      next := next.(mission := pending.mission);
      next := next.(library := pending.library);
    }
    if o.strategy {
      next := next.(peos := pending.peos);
      next := next.(sos := pending.sos);
    }
    if o.courses {
      next := next.(courses := pending.courses);
      next := next.(knowledgeAreas := pending.knowledgeAreas);
      next := next.(teachingMethods := pending.teachingMethods);
      next := next.(assessmentMethods := pending.assessmentMethods);
    }
    if o.faculty {
      next := next.(faculties := pending.faculties);
      next := next.(facultyTitles := pending.facultyTitles);
    }
    if o.matrices {
      next := next.(courseSoMap := pending.courseSoMap);
      next := next.(coursePiMap := pending.coursePiMap);
      next := next.(coursePeoMap := pending.coursePeoMap);
      next := next.(peoSoMap := pending.peoSoMap);
      next := next.(peoConstituentMap := pending.peoConstituentMap);
    }
    if o.settings {
      var currentApiKey := prev.geminiConfig.apiKey;
      next := next.(geminiConfig := pending.geminiConfig.(apiKey := currentApiKey));
      next := next.(users := pending.users);
      next := next.(authEnabled := pending.authEnabled);
    }
  }

  /** Whatever is selected, the API key, the language and the session user stay the
      current ones. */
  lemma ImportKeepsSession(prev: AppState, pending: AppState, o: ImportOptions)
    ensures var r := Imported(prev, pending, o);
      && r.geminiConfig.apiKey == prev.geminiConfig.apiKey
      && r.language == prev.language && r.currentUser == prev.currentUser
  {
  }

  const AllSections := ImportOptions(true, true, true, true, true, true)

  /** Selecting every section takes the whole pending document except the API key, the
      language and the session user. */
  lemma ImportEverything(prev: AppState, pending: AppState)
    ensures Imported(prev, pending, AllSections)
         == pending.(language := prev.language, currentUser := prev.currentUser,
                     geminiConfig := pending.geminiConfig.(apiKey := prev.geminiConfig.apiKey))
  {
  }

  const NoSections := ImportOptions(false, false, false, false, false, false)

  function Union(a: ImportOptions, b: ImportOptions): ImportOptions
  {
    ImportOptions(a.general || b.general, a.strategy || b.strategy, a.courses || b.courses,
                  a.faculty || b.faculty, a.matrices || b.matrices, a.settings || b.settings)
  }

  /** Selecting nothing changes nothing. */
  lemma ImportNothing(prev: AppState, pending: AppState)
    ensures Imported(prev, pending, NoSections) == prev
  {
  }

  /** Two imports of the same file, one after the other, are one import of the union of the
      selections; in particular repeating an import changes nothing more. */
  lemma ImportTwice(prev: AppState, pending: AppState, a: ImportOptions, b: ImportOptions)
    ensures Imported(Imported(prev, pending, a), pending, b) == Imported(prev, pending, Union(a, b))
  {
    var r, u := Imported(Imported(prev, pending, a), pending, b), Imported(prev, pending, Union(a, b));
    assert r.geminiConfig == u.geminiConfig;
  }

  // ---------------------------------------------------------------------------------------
  // Clearing

  /** `clearData`: courses, faculty, library, strategy, mission, the five matrices, the
      program texts and the MOET objectives and structure lists are emptied. Sub-blocks,
      catalogues, users and settings stay. */
  function ClearData(prev: AppState): (r: AppState)
    ensures r.courses == [] && r.faculties == [] && r.library == [] && r.peos == [] && r.sos == []
    ensures r.courseSoMap == [] && r.coursePiMap == [] && r.coursePeoMap == [] && r.peoSoMap == []
    ensures r.peoConstituentMap == []
    ensures r.mission == Mission(EmptyText, [])
    ensures r.Moet().programStructure == EmptyStructure && r.Moet().courseObjectiveMap == []
    ensures r.Moet().specificObjectives == [] && r.Moet().generalObjectives == EmptyText
  {
    var g := prev.generalInfo;
    prev.(courses := [], faculties := [], library := [], peos := [], sos := [],
          mission := Mission(EmptyText, []),
          courseSoMap := [], coursePiMap := [], coursePeoMap := [], peoSoMap := [], peoConstituentMap := [],
          generalInfo := g.(history := EmptyText, contact := EmptyText, deliveryModes := EmptyText,
                            locations := EmptyText,
                            previousEvaluations := PreviousEvaluations(EmptyText, EmptyText, EmptyText),
                            moetInfo := g.moetInfo.(generalObjectives := EmptyText, specificObjectives := [],
                                                    programStructure := EmptyStructure, courseObjectiveMap := [])))
  }

  /** Clearing keeps everything outside the design data; in particular every sub-block keeps
      its course ids, which no longer resolve. */
  lemma ClearDataKeeps(prev: AppState)
    ensures var r := ClearData(prev);
      && r.Moet().subBlocks == prev.Moet().subBlocks
      && r.Moet().majorCode == prev.Moet().majorCode && r.Moet().texts == prev.Moet().texts
      && r.generalInfo.texts == prev.generalInfo.texts
      && r.knowledgeAreas == prev.knowledgeAreas && r.teachingMethods == prev.teachingMethods
      && r.assessmentMethods == prev.assessmentMethods && r.facultyTitles == prev.facultyTitles
      && r.users == prev.users && r.currentUser == prev.currentUser && r.geminiConfig == prev.geminiConfig
      && r.language == prev.language && r.authEnabled == prev.authEnabled
  {
  }

  /** After clearing, a sub-block that listed a course lists an id no course has. */
  lemma ClearDataLeavesSubBlockIds(prev: AppState, b: SubBlock, x: string)
    requires b in prev.Moet().subBlocks && x in b.courseIds
    ensures b in ClearData(prev).Moet().subBlocks && x !in CourseIds(ClearData(prev).courses)
  {
  }

  /** Clearing twice is clearing once. */
  lemma ClearDataIdempotent(prev: AppState)
    ensures ClearData(ClearData(prev)) == ClearData(prev)
  {
  }
}
