# Academic program editor: reference integrity and deduplication, in Dafny

This project models the core of a browser-based editor for university study programs. The
editor keeps one in-memory program document (`AppState`): courses with their syllabi, the
resource library, faculty, the course/outcome join tables, and the program structure (four main
course lists plus elective sub-blocks). Every edit is a pure `prev => next` update of that
document. The model keeps that shape: `Types.AppState` is a datatype, each handler is a function
from document to document. The loops that carry state from one step to the next (the
duplicate-resource scan, the textbook merge, the usage counts, the CSV reader, the course-id
assignment, the Levenshtein matrix) become `method`s proved equal to specification functions.
The `map`, `filter`, `sort` and `reduce` chains stay functions. That includes three callbacks
that write into a map or an accumulator: the `faculties.map` that fills the faculty id map
(`Canonical.FacultyIdMap`), the `forEach` that rebuilds a course's `instructorDetails` (the map
comprehension of `Canonical.RemapInstructorDetails`), and the `reduce` that sums a method's
hours (`SyllabusEditor.TotalHours`).

What is proved centres on three things: references resolving, ids staying unique, and lists
staying free of duplicates. The modules follow the editor's components:

- `Text`, `Numbers`, `StringSimilarity`: the title normaliser, the Levenshtein matrix, the
  similarity ratio, and `parseInt`.
- `Cluster`, `LibraryMerge`: the duplicate-resource scan and the merge that rewrites textbook
  references.
- `ImportConflict`, `CourseFields`: the CV/syllabus import with its conflict resolution, and the
  catalog/content split of a course record.
- `Canonical`: the `normalizeData` canonicalisation pass.
- `SettingsImport`: the import normaliser, the selective import and the clear-all action.
- `LibraryEditor`: library add/save/delete, the usage index and the library filter.
- `CourseMapping`: course editing, the relation picker, the IRM and PI matrices, course delete.
- `StructureEditor`: the membership operations on main lists and sub-blocks.
- `Objectives`: the objective ordering and labels, course-objective keys and implied links.
- `CatalogCsv`: the CSV catalog export, parse and merge, with the export/import round trip.
- `SyllabusEditor`: the syllabus editing helpers.
- `AppShell`: the export snapshot, its file name, the restore, and the sign-in guard.
- `ReferenceSites`: the reference sites as tagged descriptors, and what the deleting, merging and
  canonicalising operations do to each.

Similarity scores are rationals `num/den`. The thresholds `> 0.7` and `< 0.5` are compared by
cross-multiplication, so no floating point is involved. Ids from the clock (`Date.now()`) are
parameters. A parse of JSON text is an `Option` the caller supplies (`None` for text that does
not parse).

## Model

| member | source | states |
|---|---|---|
| Text.LowerChar | modules/JSONInputModule.tsx:13 | lower-casing maps A-Z onto a-z and keeps digits, spaces and a-z |
| Text.UpperChar | modules/SettingsModule.tsx:385 | the one-to-one part of upper-casing maps a-z onto A-Z and keeps digits, spaces and A-Z |
| Text.UpperOf | modules/SettingsModule.tsx:385 | one character upper-cased: `ß` alone becomes two characters (`SS`), no a-z remains, a letter or `ß` gives an A-Z first character, and capitals, digits, spaces, `-` and `_` stay |
| Text.Upper | modules/SettingsModule.tsx:385 | `toUpperCase` yields between one and two times as many characters and no a-z |
| Text.UpperAppend | modules/SettingsModule.tsx:385 | upper-casing distributes over concatenation |
| Text.UpperKeeps | modules/SettingsModule.tsx:385 | text made of capitals, digits, whitespace, `-` and `_` is its own upper case |
| Text.Utf16Length | modules/JSONInputModule.tsx:214 | `length` counts between one and two code units per character |
| Text.Utf16LengthBmp | modules/JSONInputModule.tsx:214 | `length` equals the number of characters exactly when none lies outside the Basic Multilingual Plane |
| Text.Utf16LengthAppend | App.tsx:87 | `length` of a concatenation is the sum of the lengths |
| Text.BaseLetter | modules/JSONInputModule.tsx:14-15 | a precomposed accented letter decomposes to an ASCII base letter; ASCII letters and combining marks have none |
| Text.FoldChar | modules/JSONInputModule.tsx:13-16 | one character after lower-casing, diacritic stripping and the `[a-z0-9\s]` filter: at most one character, and a-z, A-Z, digits and spaces survive as themselves |
| Text.StripDiacriticsPlain | modules/JSONInputModule.tsx:14-15 | stripping diacritics leaves an already-normal string unchanged |
| Text.KeepNormalCharsShape | modules/JSONInputModule.tsx:16 | the character filter keeps only `[a-z0-9]` and whitespace |
| Text.KeepNormalCharsPlain | modules/JSONInputModule.tsx:16 | the filter leaves an already-filtered string unchanged |
| Text.StartIdxSpec | modules/JSONInputModule.tsx:17 | `trim` drops exactly the leading whitespace |
| Text.EndIdxSpec | modules/JSONInputModule.tsx:17 | `trim` drops exactly the trailing whitespace |
| Text.TrimShape | modules/JSONInputModule.tsx:17 | a trimmed string neither starts nor ends with whitespace, and is empty exactly when the input is all whitespace |
| Text.TrimTrimmed | modules/JSONInputModule.tsx:17 | trimming a trimmed string changes nothing |
| Text.NormalizeStrShape | modules/JSONInputModule.tsx:11-18 | `normalizeStr` yields only `[a-z0-9]` and whitespace, with no whitespace at either end |
| Text.NormalizeStrIdempotent | modules/JSONInputModule.tsx:11-18 | normalising twice equals normalising once |
| Text.SplitOn | modules/MappingModule.tsx:479 | `split` yields at least one piece, and no piece contains the separator |
| Text.SplitJoin | modules/MappingModule.tsx:529 | splitting a join of separator-free pieces gives the pieces back |
| Seqs.MapFilter | modules/SettingsModule.tsx:401-405 | `map` then `filter` in one pass: never longer, and a value is in the result exactly when some input element maps to it |
| Seqs.MapFilterAppend | modules/SettingsModule.tsx:401-405 | the pass distributes over concatenation, so order and duplicates are kept |
| Numbers.NatToString | modules/SettingsModule.tsx:379 | the decimal rendering of a number is non-empty, made of digits, and has no leading zero |
| Numbers.ParseDigits | modules/MappingModule.tsx:526-527 | `parseInt` of a digit string is the digits' value |
| Numbers.ParseIntToString | modules/MappingModule.tsx:526-527 | `parseInt` reads back every integer it is given in decimal |
| Numbers.IntToStringInjective | modules/TransformationModule.tsx:670 | different integers render differently |
| StringSimilarity.LevSymmetric | modules/JSONInputModule.tsx:20-39 | the edit distance is symmetric |
| StringSimilarity.LevBounds | modules/JSONInputModule.tsx:20-39 | the length difference is at most the distance, and the distance is at most the longer length |
| StringSimilarity.LevZero | modules/JSONInputModule.tsx:20-39 | the distance is 0 exactly when the strings are equal |
| StringSimilarity.FillRow | modules/JSONInputModule.tsx:26-36 | one pass of the inner loop fills row `i` of the matrix with the recurrence and leaves later rows alone |
| StringSimilarity.LevenshteinDistance | modules/JSONInputModule.tsx:20-39 | the nested loops over the matrix return the recursive edit distance |
| StringSimilarity.Similarity | modules/JSONInputModule.tsx:41-51 | the score has a positive denominator and lies in [0, 1] |
| StringSimilarity.CalculateSimilarity | modules/JSONInputModule.tsx:41-51 | the method computing the score returns the specification's ratio |
| StringSimilarity.SimilarityOne | modules/JSONInputModule.tsx:44-46 | the score is 1 exactly when the normalised strings are equal (both empty included) |
| StringSimilarity.SimilaritySymmetric | modules/JSONInputModule.tsx:41-51 | the score is symmetric in its arguments |
| StringSimilarity.SimilarityReflexive | modules/JSONInputModule.tsx:44-46 | a string scores 1 against itself |
| StringSimilarity.LengthGapBlocksMatch | modules/JSONInputModule.tsx:211-234 | normalised titles whose lengths differ by 30% or more of the longer never pass the 0.7 threshold |
| Cluster.SortByTitleLength | modules/JSONInputModule.tsx:214 | the sort is a permutation of the library |
| Cluster.SortSorted | modules/JSONInputModule.tsx:214 | the result is ordered by title `length` in UTF-16 code units, longest first |
| Cluster.SortStable | modules/JSONInputModule.tsx:214 | resources of equal title length keep their relative order |
| Cluster.SortIdsDistinct | modules/JSONInputModule.tsx:214 | sorting keeps ids pairwise distinct |
| Cluster.MatchesSymmetric | modules/JSONInputModule.tsx:225-234 | the title-and-author gate is symmetric |
| Cluster.CollectGroup | modules/JSONInputModule.tsx:219-238 | the inner loop collects, after the anchor, exactly the unvisited later resources the gate accepts, and marks them visited |
| Cluster.ScanGroups | modules/JSONInputModule.tsx:216-243 | the outer loop yields well-formed groups with no id in two groups, and, when ids are distinct, misses no matching pair |
| Cluster.ScanFacts | modules/JSONInputModule.tsx:214-243 | the groups of the sorted copy hold library resources, and with distinct ids no two ungrouped resources match |
| Cluster.ScanLibrary | modules/JSONInputModule.tsx:206-248 | each group has at least two members; each member matches the anchor (title > 0.7, author ≥ 0.5 when both are non-empty); members come from the library; no anchor has a shorter title than its members; no id is in two groups; when library ids are distinct, no two ungrouped resources match |
| LibraryMerge.RetiredIds | modules/JSONInputModule.tsx:256 | the retired ids are the group's ids other than the survivor |
| LibraryMerge.Redirect | modules/JSONInputModule.tsx:263-269 | every retired reference now names the survivor, and the other entries are unchanged |
| LibraryMerge.RedirectIds | modules/JSONInputModule.tsx:263-269 | a redirected list cites the survivor, cites no retired id, and keeps every old non-retired id |
| LibraryMerge.RedirectTextbooks | modules/JSONInputModule.tsx:262-271 | the loop with the `changed` flag computes the redirect, and the flag is set exactly when a retired id was cited |
| LibraryMerge.DedupeUnique | modules/JSONInputModule.tsx:274-281 | the de-duplicated list has pairwise distinct resource ids |
| LibraryMerge.DedupeIds | modules/JSONInputModule.tsx:274-281 | de-duplicating keeps the set of cited ids |
| LibraryMerge.DedupeKeepsFirst | modules/JSONInputModule.tsx:274-281 | each kept entry is the first entry with its id |
| LibraryMerge.DedupeIdempotent | modules/JSONInputModule.tsx:274-281 | de-duplicating twice equals de-duplicating once |
| LibraryMerge.DedupeTextbooks | modules/JSONInputModule.tsx:274-281 | the loop with the `seenIds` set computes the de-duplication |
| LibraryMerge.MergeCourse | modules/JSONInputModule.tsx:261-284 | a course citing no retired id is returned as is; otherwise only its textbooks change, to a duplicate-free list without retired ids; topics are never touched |
| LibraryMerge.MergeCourseTextbooks | modules/JSONInputModule.tsx:261-284 | the per-course method computes the merged course |
| LibraryMerge.MergeIntoTargetFacts | modules/JSONInputModule.tsx:259-294 | after the merge, no library entry and no textbook carries a retired id, the survivor stays in the library, untouched courses stay, and only courses and library change |
| LibraryMerge.MergeCourseIds | modules/JSONInputModule.tsx:261-284 | a merged course cites the survivor and otherwise exactly its old non-retired ids |
| LibraryMerge.MergeLibraryGroup | modules/JSONInputModule.tsx:250-301 | no selection or no survivor changes nothing; otherwise the selected group is merged and removed from the list of groups |
| LibraryMerge.UsageCount | modules/JSONInputModule.tsx:306-312 | the usage count is at most the number of courses, and 0 exactly when no course cites the resource |
| LibraryMerge.CalculateUsage | modules/JSONInputModule.tsx:306-312 | the counting loop returns the usage count |
| LibraryMerge.MergeLeavesNoUsage | modules/JSONInputModule.tsx:259-294 | no course cites a retired id after the merge |
| CourseFields.PreserveCatalog | modules/JSONInputModule.tsx:162-176 | the merged course has the existing course's id and ten catalog fields and the incoming course's content |
| CourseFields.PreserveCatalogLaws | modules/JSONInputModule.tsx:162-176 | merging a course with itself changes nothing, and merging twice equals merging once |
| CourseFields.AssembleParts | modules/SyllabusEditorModule.tsx:308-324 | a course is exactly its catalog part and its content part |
| CourseFields.PastedOverLaws | modules/SyllabusEditorModule.tsx:210-214 | spreading a record with every syllabus field replaces the syllabus, an empty record changes nothing, and spreading the same record twice equals once |
| ImportConflict.FindFacultyById | modules/JSONInputModule.tsx:102 | the lookup finds a faculty with that id, or there is none |
| ImportConflict.FindFacultyByName | modules/JSONInputModule.tsx:106-116 | the lookup finds a faculty whose normalised non-empty vi or en name equals the import's, or there is none |
| ImportConflict.FindCourseById | modules/JSONInputModule.tsx:128 | the lookup finds a course with that id, or there is none |
| ImportConflict.ImportFacultyFacts | modules/JSONInputModule.tsx:86-123 | error exactly for no record or a missing e-mail; a conflict or an error leaves the document unchanged; an id match comes first and reports `id`, otherwise a name match reports `name`; with no match the records are appended |
| ImportConflict.ImportCourseFacts | modules/JSONInputModule.tsx:86-134 | error exactly for no record or a missing code; conflict exactly on an id match; otherwise the records are appended |
| ImportConflict.OverwriteFaculty | modules/JSONInputModule.tsx:148-156 | the matched faculty becomes the import under the existing id; the others are unchanged |
| ImportConflict.OverwriteFacultyKeepsIds | modules/JSONInputModule.tsx:148-156 | overwriting keeps every faculty id |
| ImportConflict.OverwriteCourseFacts | modules/JSONInputModule.tsx:157-181 | the matched course keeps its catalog fields and takes the import's content; the other courses and every id are unchanged |
| ImportConflict.CreateNewFaculty | modules/JSONInputModule.tsx:188-197 | create-new appends the import under a new `fac-` id |
| ImportConflict.CreateNewCourse | modules/JSONInputModule.tsx:188-199 | create-new appends the import under a new `CID-` id |
| ImportConflict.NewIdsDiffer | modules/JSONInputModule.tsx:193 | ids made at different times differ |
| ImportConflict.CreateNewCourseKeepsIdsDistinct | modules/JSONInputModule.tsx:188-199 | with a fresh id, create-new keeps course ids distinct and leaves the matched course untouched |
| ImportConflict.CreateNewFacultyKeepsIdsDistinct | modules/JSONInputModule.tsx:188-197 | with a fresh id, create-new keeps faculty ids distinct and leaves the matched faculty untouched |
| ImportConflict.ResolveCourse | modules/JSONInputModule.tsx:144-203 | overwrite keeps the number of courses; create-new adds one |
| ImportConflict.ResolveFaculty | modules/JSONInputModule.tsx:144-203 | overwrite keeps the number of faculty; create-new adds one |
| Canonical.FacultySlug | modules/SettingsModule.tsx:378 | the slug has at most ten characters, all lower-case letters or digits |
| Canonical.FacultyNewIdsDiffer | modules/SettingsModule.tsx:377-382 | `fac-<slug>_<i>` ids at different positions differ |
| Canonical.NewFacultyIdsDistinct | modules/SettingsModule.tsx:377-382 | the new faculty ids are pairwise distinct |
| Canonical.FacultyIdMapFacts | modules/SettingsModule.tsx:380 | every mapped faculty id is a new faculty id, and different old ids map to different new ids |
| Canonical.RemapInstructorDetails | modules/SettingsModule.tsx:391-397 | every new detail key is a new faculty id and the image of an old key whose detail it carries, and each old key that maps carries its detail over |
| Canonical.CodeSlug | modules/SettingsModule.tsx:385 | the slug of a code holds only `[A-Z0-9-]` |
| Canonical.CodeSlugOfSlug | modules/SettingsModule.tsx:385 | a code made of `[A-Z0-9-]` is its own slug |
| Canonical.CodeSlugTwice | modules/SettingsModule.tsx:385 | slugging a slug changes nothing |
| Canonical.BaseId | modules/SettingsModule.tsx:385-386 | the base id (slug, or `CID-<i>` when shorter than 2) contains no `_` |
| Canonical.SuffixedFacts | modules/SettingsModule.tsx:387 | a suffixed id contains `_`, and equal suffixed ids come from the same position |
| Canonical.AssignCourseIds | modules/SettingsModule.tsx:384-388 | the loop that threads `idMap` computes the specification's assignment |
| Canonical.AssignMapsEach | modules/SettingsModule.tsx:388 | with distinct old ids, each old id maps to the id assigned at its position |
| Canonical.AssignShape | modules/SettingsModule.tsx:385-387 | each assigned id is the base id or the base id with `_<i>` |
| Canonical.AssignDistinct | modules/SettingsModule.tsx:384-388 | with distinct old ids, the assigned course ids are pairwise distinct |
| Canonical.NewIdFresh | modules/SettingsModule.tsx:387 | with distinct old ids, the suffixed id chosen at a position is none of the ids assigned before it |
| Canonical.RemapIdList | modules/SettingsModule.tsx:406 | a cleaned structure list holds only resolving ids, each the remapping of an old id, and keeps every old id whose remapping resolves |
| Canonical.RemapIdListAppend | modules/SettingsModule.tsx:390-406 | the list is cleaned id by id in order: cleaning distributes over concatenation and one id gives its remapping or nothing |
| Canonical.RemapStructure | modules/SettingsModule.tsx:408-413 | each of the four main lists is cleaned on its own |
| Canonical.RemapCourseSo | modules/SettingsModule.tsx:402 | every kept SO-matrix entry names a new course and is an input entry with its course id remapped; every entry whose remapping resolves is kept, remapped |
| Canonical.RemapCourseSoAppend | modules/SettingsModule.tsx:402 | the SO matrix is rewritten entry by entry in order, duplicates kept: rewriting distributes over concatenation and one entry gives its remapping or nothing |
| Canonical.RemapCoursePi | modules/SettingsModule.tsx:403 | the same for the PI matrix |
| Canonical.RemapCoursePiAppend | modules/SettingsModule.tsx:403 | the same order law for the PI matrix |
| Canonical.RemapCoursePeo | modules/SettingsModule.tsx:404 | the same for the PEO matrix |
| Canonical.RemapCoursePeoAppend | modules/SettingsModule.tsx:404 | the same order law for the PEO matrix |
| Canonical.RemapKey | modules/SettingsModule.tsx:415-418 | a key survives exactly when its course half resolves, and becomes `newCourse\|objective` |
| Canonical.RemapKeys | modules/SettingsModule.tsx:415-419 | every new key comes from an old key that survives, and every old key that survives is there rewritten |
| Canonical.RemapKeysAppend | modules/SettingsModule.tsx:415-419 | the keys are rewritten one by one in order: rewriting distributes over concatenation and one key gives its rewriting or nothing |
| Canonical.NewCourse | modules/SettingsModule.tsx:384-400 | a course changes only its id and instructor references, and these all name new faculty |
| Canonical.NormalizeDataCourseRecords | modules/SettingsModule.tsx:384-400 | `normalizeData` keeps the number of courses and every course field but the id and instructor references (prerequisite codes included) |
| Canonical.NormalizeDataFacultyRecords | modules/SettingsModule.tsx:377-382 | it keeps the number of faculty and every faculty field but the id |
| Canonical.NormalizeDataFrame | modules/SettingsModule.tsx:421-425 | only courses, faculty, the three join tables, the structure lists and the objective keys change; sub-blocks stay |
| Canonical.NormalizeDataFacultyIdsDistinct | modules/SettingsModule.tsx:377-382 | the new faculty ids are distinct |
| Canonical.NormalizeDataCourseIdsDistinct | modules/SettingsModule.tsx:384-388 | the new course ids are distinct when the old ones were |
| Canonical.NormalizeDataResolvesJoins | modules/SettingsModule.tsx:402-404 | every surviving join-table entry names a course |
| Canonical.NormalizeDataResolvesStructure | modules/SettingsModule.tsx:406-413 | every id in the four main lists names a course |
| Canonical.NormalizeDataResolvesKeys | modules/SettingsModule.tsx:415-419 | every objective key comes from an old key, with its course half remapped to an existing course and its objective half kept |
| Canonical.NormalizeDataResolvesInstructors | modules/SettingsModule.tsx:390-397 | every instructor id and detail key names a faculty |
| Canonical.NormalizeDataKeepsLinks | modules/SettingsModule.tsx:402 | with distinct old ids, an SO-matrix entry of a course survives under the course's new id |
| Canonical.NormalizeDataKeepsKeys | modules/SettingsModule.tsx:415-419 | with distinct old ids, an objective key of a course survives as `<new id>\|<objective>` |
| Canonical.NormalizeDataKeepsPlacements | modules/SettingsModule.tsx:406-413 | with distinct old ids, a course in a main list stays in that list under its new id |
| SettingsImport.NormalizeCloMapping | modules/SettingsModule.tsx:112 | a CLO row gets `piIds` `[]` when it has none and keeps everything else |
| SettingsImport.NormalizeCourse | modules/SettingsModule.tsx:105-116 | credits default to 0, `isEssential` to false, `isAbet` to `isEssential`, the lists to `[]` and the details to `{}`; every other field is kept |
| SettingsImport.MergeGemini | modules/SettingsModule.tsx:137 | each settings field comes from the file when present, else from the base |
| SettingsImport.NormalizeIncomingData | modules/SettingsModule.tsx:88-146 | every section takes the file's value or its default as the normaliser says, and the session user is the base's |
| SettingsImport.NormalizeCourseRoundTrip | modules/SettingsModule.tsx:105-116 | normalising an already normal course gives it back |
| SettingsImport.NormalizeCourseIdempotent | modules/SettingsModule.tsx:105-116 | normalising twice equals normalising once |
| SettingsImport.NormalizeIncomingRoundTrip | modules/SettingsModule.tsx:88-146 | normalising an exported normal document gives it back, apart from the session user |
| SettingsImport.ConfirmImport | modules/SettingsModule.tsx:166-210 | the step-by-step assignment computes the selective import |
| SettingsImport.ImportKeepsSession | modules/SettingsModule.tsx:198-207 | whatever is selected, the API key, the language and the signed-in user stay |
| SettingsImport.ImportEverything | modules/SettingsModule.tsx:166-210 | importing every section takes the whole file except language, user and API key |
| SettingsImport.ImportNothing | modules/SettingsModule.tsx:166-210 | importing no section changes nothing |
| SettingsImport.ImportTwice | modules/SettingsModule.tsx:166-210 | importing sections A then B equals importing A and B together |
| SettingsImport.ClearData | modules/SettingsModule.tsx:313-357 | courses, faculty, library, objectives, outcomes, the matrices, the mission, the MOET objectives, the objective keys and the structure lists are emptied |
| SettingsImport.ClearDataKeeps | modules/SettingsModule.tsx:319-357 | sub-blocks, the major code and program texts, the catalogues, users, session, settings, language and sign-in setting stay |
| SettingsImport.ClearDataLeavesSubBlockIds | modules/SettingsModule.tsx:349-355 | after clearing, a sub-block still lists ids that name no course |
| SettingsImport.ClearDataIdempotent | modules/SettingsModule.tsx:313-357 | clearing twice equals clearing once |
| LibraryEditor.EmptyUsage | modules/LibraryModule.tsx:22-23 | the usage map starts with an empty entry for exactly the library ids |
| LibraryEditor.AddCourseUsage | modules/LibraryModule.tsx:24-37 | one course's loop adds its code to the entry of each resource it cites, by entry type, and ignores unknown ids |
| LibraryEditor.ResourceUsage | modules/LibraryModule.tsx:21-40 | the map has exactly the library ids as keys, and each entry is that resource's usage over all courses |
| LibraryEditor.EntriesUsageMembership | modules/LibraryModule.tsx:24-37 | one course lists its code under textbooks (references) exactly when one of its entries cites the resource with that type |
| LibraryEditor.UsageOfMembership | modules/LibraryModule.tsx:21-40 | a code is listed under textbooks (references) exactly when that course lists the resource as a textbook (reference) |
| LibraryEditor.FilteredLibrary | modules/LibraryModule.tsx:42-46 | an item is shown exactly when its lower-cased title, author and publisher contain the lower-cased query and the type filter allows it |
| LibraryEditor.FilteredLibraryEmptyQuery | modules/LibraryModule.tsx:42-46 | an empty query with filter `all` shows the whole library |
| LibraryEditor.HandleAdd | modules/LibraryModule.tsx:48-63 | exactly one new textbook with the fresh id and an empty title is prepended |
| LibraryEditor.HandleAddKeepsIdsUnique | modules/LibraryModule.tsx:48-63 | with a fresh id, library ids stay distinct |
| LibraryEditor.HandleSave | modules/LibraryModule.tsx:65-74 | no edited id or an empty title changes nothing; otherwise only the item with the edited id is replaced |
| LibraryEditor.HandleSaveKeepsIds | modules/LibraryModule.tsx:65-74 | saving keeps every id and id distinctness, and saving twice equals saving once |
| LibraryEditor.RemoveCitations | modules/LibraryModule.tsx:80-85 | a course loses exactly its textbook entries for the resource |
| LibraryEditor.HandleDelete | modules/LibraryModule.tsx:76-88 | the resource leaves the library and every course's textbooks; all else is unchanged |
| LibraryEditor.HandleDeleteLeavesNoReference | modules/LibraryModule.tsx:76-88 | after deleting, the id is not in the library and no course cites it |
| LibraryEditor.HandleDeleteKeepsOtherUsage | modules/LibraryModule.tsx:76-88 | deleting one resource leaves every other resource's usage unchanged |
| LibraryEditor.HandleDeleteIdempotent | modules/LibraryModule.tsx:76-88 | deleting twice equals deleting once |
| LibraryEditor.HandleAddThenDelete | modules/LibraryModule.tsx:48-88 | deleting a just-added, uncited resource restores the document |
| CourseMapping.RelationCandidates | modules/MappingModule.tsx:51-60 | a candidate is another course with a smaller semester (prerequisite) or the same semester (co-requisite) that matches the search |
| CourseMapping.EmptySearchMatches | modules/MappingModule.tsx:57-59 | an empty search matches every course |
| CourseMapping.EditCourseFields | modules/MappingModule.tsx:436-450 | an edit sets the named field and no other, except that setting `isEssential` true also sets `isAbet` true |
| CourseMapping.UpdateCourse | modules/MappingModule.tsx:436-450 | only the course with that id is edited |
| CourseMapping.SaveNewCourse | modules/MappingModule.tsx:390-426 | saving fails exactly when the code or the Vietnamese name is empty |
| CourseMapping.SaveNewCourseAppends | modules/MappingModule.tsx:390-426 | a saved course is appended under the fresh id with the form's code, name, flags and type, 3 credits, semester 1 and area `other` for empty entries, and empty syllabus content; nothing else changes |
| CourseMapping.DeleteCourse | modules/MappingModule.tsx:428-434 | exactly the courses with that id are removed, and nothing else changes |
| CourseMapping.DeleteCourseLeavesDangling | modules/MappingModule.tsx:428-434 | an SO-matrix entry of the deleted course stays and no longer resolves; the other matrices and the structure are untouched |
| CourseMapping.Level | modules/MappingModule.tsx:612-613 | there is no level exactly when the matrix has no entry for the pair |
| CourseMapping.FourClicksRestore | modules/MappingModule.tsx:614-626 | four clicks return any reachable level (none, I, R, M) to itself |
| CourseMapping.SetLevelFacts | modules/MappingModule.tsx:617-621 | setting a level on an existing pair sets it and leaves the other entries alone |
| CourseMapping.ToggleMapping | modules/MappingModule.tsx:610-627 | one click moves the pair to the next level and leaves every other entry unchanged |
| CourseMapping.TogglePi | modules/MappingModule.tsx:629-638 | toggling flips membership of exactly that (course, PI) entry |
| CourseMapping.TogglePiTwice | modules/MappingModule.tsx:629-638 | toggling twice restores membership, and restores the list when the entry was absent |
| StructureEditor.StripFromMainLists | modules/MappingModule.tsx:305-312 | stripping a course removes it from all four lists and leaves the other ids' counts |
| StructureEditor.SubCountStrip | modules/MappingModule.tsx:295-300 | stripping a course from every sub-block removes all its placements there and no one else's |
| StructureEditor.SubCountAppend | modules/MappingModule.tsx:295-303 | appending to the target block adds one placement per block with that id |
| StructureEditor.InferredBlock | modules/MappingModule.tsx:250-254 | `gen_ed` goes to gen, `fund_eng` and `math_sci` to fund, anything else to spec |
| StructureEditor.MakeRequired | modules/MappingModule.tsx:233-284 | a missing course changes nothing |
| StructureEditor.MakeRequiredPlacement | modules/MappingModule.tsx:237-274 | a course made required is in no sub-block, is in the inferred main list (exactly once if it was there at most once), becomes `REQUIRED`, and the other lists and courses keep their placements |
| StructureEditor.ConfirmAddToBlockPlacement | modules/MappingModule.tsx:286-324 | the course is in no main list and placed once per block with the target id, last in that block; other courses keep their placements |
| StructureEditor.CreateAndAddToBlockPlacement | modules/MappingModule.tsx:326-369 | the course is placed exactly once, alone in the new block at the end; other courses keep their placements |
| StructureEditor.HandleTypeChange | modules/TransformationModule.tsx:405-460 | an elective change under a block with two or more sub-blocks changes nothing |
| StructureEditor.HandleTypeChangeRequired | modules/TransformationModule.tsx:381-402 | a required change removes the course from every sub-block and leaves it in the current main list (exactly once if at most once before); other lists stay |
| StructureEditor.HandleTypeChangeNewSubBlock | modules/TransformationModule.tsx:405-432 | with no sub-block under the block, the course leaves the main list and a new sub-block holding only the course is appended |
| StructureEditor.HandleTypeChangeOnlySubBlock | modules/TransformationModule.tsx:433-452 | with one sub-block, the course leaves the main list and is added to that sub-block if absent |
| StructureEditor.ConfirmMoveToSubBlockPlacement | modules/TransformationModule.tsx:464-497 | the course leaves the current main list and every sub-block and is placed once per block with the target id; other courses keep their placements |
| StructureEditor.DeleteSubBlock | modules/TransformationModule.tsx:517-520 | exactly the sub-block with that id is removed |
| StructureEditor.DeleteSubBlockDropsCourses | modules/TransformationModule.tsx:517-520 | no course gains a placement, and a course placed only in the deleted block drops out of the structure |
| StructureEditor.RemoveCourseFromStructure | modules/TransformationModule.tsx:523-538 | the course leaves the block's main list; if it was there that list becomes the list without it and the sub-blocks stay; otherwise the main lists stay and each sub-block under the block loses the course while the other sub-blocks stay |
| StructureEditor.RemoveCourseFromStructureFacts | modules/TransformationModule.tsx:523-538 | other main lists stay, and if it was not in the main list the course leaves every sub-block under that block |
| StructureEditor.AddCourseToMainList | modules/TransformationModule.tsx:540-547 | a listed course changes nothing; otherwise it is appended and becomes `REQUIRED` |
| StructureEditor.AddCourseToMainListIdempotent | modules/TransformationModule.tsx:540-547 | adding twice equals adding once, and a new course appears exactly once |
| StructureEditor.AddCourseToSubBlock | modules/TransformationModule.tsx:549-557 | each sub-block with the target id gets the course appended when absent, every other sub-block stays, and nothing outside the sub-blocks changes |
| StructureEditor.AddCourseToSubBlockIdempotent | modules/TransformationModule.tsx:549-557 | adding twice equals adding once |
| StructureEditor.RemoveCourseFromSubBlock | modules/TransformationModule.tsx:559-567 | each sub-block with the target id loses every occurrence of the course, every other sub-block stays, and nothing outside the sub-blocks changes |
| StructureEditor.AddThenRemoveSubBlock | modules/TransformationModule.tsx:549-567 | adding an absent course to a sub-block and removing it again restores the document |
| Objectives.Rank | modules/TransformationModule.tsx:658-661 | a rank lies between -1 and 3, and is -1 exactly when the objective has no category |
| Objectives.SortByCategory | modules/TransformationModule.tsx:656-664 | the sorted objectives are a permutation of the objectives |
| Objectives.SortByCategorySorted | modules/TransformationModule.tsx:656-664 | the result is ordered by category rank |
| Objectives.SortByCategoryStable | modules/TransformationModule.tsx:656-664 | objectives of the same category keep their relative order |
| Objectives.FindIndex | modules/TransformationModule.tsx:667 | `findIndex`: the first position with the id, or -1 when there is none |
| Objectives.LabelAt | modules/TransformationModule.tsx:669-671 | a label starts with letter `i mod 26` and is one character exactly when `i < 26` |
| Objectives.LabelTail | modules/TransformationModule.tsx:670 | past 26, the letter is followed by `i div 26` in decimal |
| Objectives.ObjectiveLabel | modules/TransformationModule.tsx:666-672 | the label is `?` exactly when the id is not among the objectives |
| Objectives.LabelAtInjective | modules/TransformationModule.tsx:669-671 | different positions get different labels |
| Objectives.LabelsDistinct | modules/TransformationModule.tsx:666-672 | two different listed objectives get different labels |
| Objectives.ObjectiveKeySplit | modules/TransformationModule.tsx:676 | a `course\|objective` key splits back into its halves |
| Objectives.ToggleCourseObjective | modules/TransformationModule.tsx:674-684 | toggling flips membership of exactly that key |
| Objectives.ToggleCourseObjectiveTwice | modules/TransformationModule.tsx:674-684 | toggling twice restores membership, and restores the list when the key was absent |
| Objectives.ImpliedLinkMeaning | modules/TransformationModule.tsx:686-696 | `c\|o` is implied exactly when objective o lists an SO s and the matrix maps course c to s with a level other than none |
| Objectives.ImpliedLinks | modules/TransformationModule.tsx:686-696 | the nested loops adding into the set compute the implied links |
| CatalogCsv.FirstSeparator | modules/MappingModule.tsx:484 | the first comma followed by an even number of quotes, or none |
| CatalogCsv.Columns | modules/MappingModule.tsx:484 | each column is a quote-aware cell, trimmed and unquoted |
| CatalogCsv.ParseTypeToken | modules/MappingModule.tsx:498-499 | exactly the three type tokens are recognised |
| CatalogCsv.ListCell | modules/MappingModule.tsx:529-530 | a list cell yields only non-empty codes, and a missing or empty cell gives `[]` |
| CatalogCsv.ListStart | modules/MappingModule.tsx:498-515 | the list columns start at column 6 or 7, depending on the layout |
| CatalogCsv.RowSemester | modules/MappingModule.tsx:527 | the semester is never 0 (it defaults to 1) |
| CatalogCsv.RowFromColumns | modules/MappingModule.tsx:517-543 | a row always has an id, a code, a semester and an area, and empty syllabus content |
| CatalogCsv.ParseRow | modules/MappingModule.tsx:482-543 | a line is skipped exactly when it has fewer than five columns |
| CatalogCsv.RowsUpToShape | modules/MappingModule.tsx:481-544 | every parsed course has an id, a code, a semester, an area and empty content |
| CatalogCsv.ReadRows | modules/MappingModule.tsx:480-544 | the line loop, skipping the header, computes the parsed rows |
| CatalogCsv.ParseCatalog | modules/MappingModule.tsx:478-544 | the file's lines give the parsed rows |
| CatalogCsv.LastWithId | modules/MappingModule.tsx:548 | `new Map(...)` keeps the last row with each id |
| CatalogCsv.LastWithIdUnique | modules/MappingModule.tsx:548 | a row whose id no other row has is the row kept for that id |
| CatalogCsv.UpdateFromRow | modules/MappingModule.tsx:551-568 | an updated course takes the row's ten catalog fields and keeps its id and syllabus content |
| CatalogCsv.MergeCatalog | modules/MappingModule.tsx:547-577 | existing courses keep their order, ids and content, take the catalog fields of a row with their id, and are otherwise unchanged; after them come the rows with unknown ids, filtered in order with duplicates kept |
| CatalogCsv.MergeCatalogIds | modules/MappingModule.tsx:547-577 | the merged ids are the old ids plus the rows' ids |
| CatalogCsv.ImportCatalog | modules/MappingModule.tsx:473-584 | a file with no rows changes nothing; otherwise the courses are merged with the rows |
| CatalogCsv.RowCells | modules/MappingModule.tsx:458-463 | an exported row has twelve cells |
| CatalogCsv.SplitJoinCells | modules/MappingModule.tsx:464-484 | splitting a joined row of well-formed cells gives the cells back |
| CatalogCsv.ListCellJoin | modules/MappingModule.tsx:529-530 | reading a joined code list gives the codes back |
| CatalogCsv.RowRoundTrip | modules/MappingModule.tsx:458-543 | reading an exported row gives the course's catalog fields with empty content |
| CatalogCsv.ExportLines | modules/MappingModule.tsx:464-479 | the exported file splits into the header line and one line per course |
| CatalogCsv.ExportImportRoundTrip | modules/MappingModule.tsx:456-544 | parsing an exported catalog gives every course's catalog fields back, in order |
| CatalogCsv.MergeOwnRecord | modules/MappingModule.tsx:551-568 | with distinct ids, merging a course's own exported row into the courses gives that course back |
| CatalogCsv.ExportThenImportIsIdentity | modules/MappingModule.tsx:456-577 | with distinct ids, importing the exported catalog into the same courses changes nothing |
| SyllabusEditor.PasteImport | modules/SyllabusEditorModule.tsx:301-332 | blank or unparseable input changes nothing; otherwise the course with the screen course's id gets the screen course's catalog fields and its current syllabus with the fields the record carries replaced; every other course and every id stays |
| SyllabusEditor.PasteCompleteRecord | modules/SyllabusEditorModule.tsx:210-214 | a pasted record carrying every syllabus field gives the course exactly that syllabus |
| SyllabusEditor.PasteImportTwice | modules/SyllabusEditorModule.tsx:301-332 | pasting the same record twice equals pasting it once |
| SyllabusEditor.ToggleInstructor | modules/SyllabusEditorModule.tsx:257-272 | off: the id and its details go; on: the id is appended and details are created as `{classInfo: '', isMain: false}` only when missing; other ids and details stay |
| SyllabusEditor.ToggleInstructorConsistent | modules/SyllabusEditorModule.tsx:257-272 | toggling keeps every listed instructor with details |
| SyllabusEditor.ToggleInstructorTwice | modules/SyllabusEditorModule.tsx:257-272 | toggling a new instructor on and off restores the course |
| SyllabusEditor.WithMain | modules/SyllabusEditorModule.tsx:501-504 | the details keep their keys and class info, and exactly the chosen key is main |
| SyllabusEditor.SetMainInstructor | modules/SyllabusEditorModule.tsx:501-504 | the loop over the detail keys computes the new details |
| SyllabusEditor.WithMainTwice | modules/SyllabusEditorModule.tsx:501-504 | setting the same main instructor twice equals setting it once |
| SyllabusEditor.Patch | modules/SyllabusEditorModule.tsx:247-250 | a patch keeps the row's CLO index |
| SyllabusEditor.FindClo | modules/SyllabusEditorModule.tsx:244 | `findIndex`: the first row with that CLO index, or -1 when there is none |
| SyllabusEditor.FindCloAgrees | modules/SyllabusEditorModule.tsx:244 | appending rows with other CLO indices does not change what the lookup finds |
| SyllabusEditor.CloRow | modules/SyllabusEditorModule.tsx:724 | the row shown for a CLO has that CLO index |
| SyllabusEditor.FindCloFirst | modules/SyllabusEditorModule.tsx:244 | with unique CLO indices, a row's position is what the lookup finds |
| SyllabusEditor.UpdateCloMap | modules/SyllabusEditorModule.tsx:242-255 | the row for the CLO becomes its old or default row patched; other CLOs' rows stay; a row is appended only when the CLO had none; CLO indices stay unique |
| SyllabusEditor.NextCoverage | modules/SyllabusEditorModule.tsx:745-747 | one press always changes the coverage level |
| SyllabusEditor.NextCoverageFour | modules/SyllabusEditorModule.tsx:745-747 | four presses return to the starting level |
| SyllabusEditor.PressCoverageRow | modules/SyllabusEditorModule.tsx:745-748 | a press advances exactly the pressed CLO's coverage and leaves every other CLO's row alone |
| SyllabusEditor.PressCoverageFourTimes | modules/SyllabusEditorModule.tsx:745-747 | four presses on a CLO restore its row's coverage |
| SyllabusEditor.FindAssessmentMethod | modules/SyllabusEditorModule.tsx:234 | the first method with that id, or none exactly when no method has it |
| SyllabusEditor.UpdateAssessment | modules/SyllabusEditorModule.tsx:229-240 | only row `idx` changes; setting the method copies its name into the type only when the Vietnamese type is empty and the method exists |
| SyllabusEditor.UpdateAssessmentTwice | modules/SyllabusEditorModule.tsx:229-240 | the same edit twice equals the edit once |
| SyllabusEditor.TotalHours | modules/SyllabusEditorModule.tsx:457 | a method's total is positive only when some topic has an activity of that method with hours |
| SyllabusEditor.TotalHoursCovers | modules/SyllabusEditorModule.tsx:457 | the total is at least each topic's hours, so it is positive exactly when some topic gives the method hours |
| SyllabusEditor.Factor | modules/SyllabusEditorModule.tsx:459 | the hours per credit are positive: the method's own value when set, 15 when unset |
| SyllabusEditor.RowForArithmetic | modules/SyllabusEditorModule.tsx:459-460 | credits are the ceiling of hours over the factor; missing hours are credits times factor minus hours, below the factor, and 0 exactly when the factor divides the hours |
| SyllabusEditor.CreditSummary | modules/SyllabusEditorModule.tsx:456-461 | every method with hours has its row, and every row has hours |
| SyllabusEditor.CreditSummaryAppend | modules/SyllabusEditorModule.tsx:456-461 | rows come method by method in method order: the summary distributes over concatenation and one method gives its row only when it has hours |
| SyllabusEditor.CreditSummaryRows | modules/SyllabusEditorModule.tsx:456-461 | every row is the row of a method with hours |
| SyllabusEditor.CreditSummaryPositive | modules/SyllabusEditorModule.tsx:456-461 | every row needs at least one credit |
| SyllabusEditor.PlainNumberValue | modules/SyllabusEditorModule.tsx:390-391 | `parseInt(s, 10)` of a plain number is its digits' value |
| SyllabusEditor.FormatTopicNo | modules/SyllabusEditorModule.tsx:387-400 | a formatted number starts with `CONT ` or is the text as given |
| SyllabusEditor.FormatMissingNo | modules/SyllabusEditorModule.tsx:387-391 | a missing number becomes `CONT <idx+1>` |
| SyllabusEditor.FormatPlainNumber | modules/SyllabusEditorModule.tsx:390-391 | digits with an optional dot become `CONT <n>` |
| SyllabusEditor.FormatKeepsCont | modules/SyllabusEditorModule.tsx:392 | text starting with `CONT` in any case is kept |
| SyllabusEditor.FormatShortCode | modules/SyllabusEditorModule.tsx:394-395 | short text that is not a plain number and that `parseInt` reads a number from gets the `CONT ` prefix |
| SyllabusEditor.FormatKeepsText | modules/SyllabusEditorModule.tsx:392-400 | given text that is neither a plain number nor a short code is kept as it is |
| SyllabusEditor.FormatTopicNoTwice | modules/SyllabusEditorModule.tsx:387-400 | formatting a formatted number keeps it |
| AppShell.ExportSnapshot | App.tsx:73-80 | the snapshot drops exactly the `u1` user, keeps the others in order, clears the API key and copies everything else |
| AppShell.ExportSnapshotTwice | App.tsx:73-80 | taking the snapshot of a snapshot changes nothing |
| AppShell.SafeOf | App.tsx:87 | one character: a safe one stays, any other becomes one `_` per UTF-16 code unit |
| AppShell.ReplaceUnsafe | App.tsx:87 | the replacement keeps the `length`, leaves only safe characters, and leaves safe text unchanged |
| AppShell.ReplaceUnsafeAppend | App.tsx:87 | the replacement distributes over concatenation |
| AppShell.Sanitize | App.tsx:87 | the output has the `length` of the trimmed input, only safe characters, and is the trimmed input when that was safe |
| AppShell.SanitizeTwice | App.tsx:87 | sanitizing twice equals sanitizing once |
| AppShell.MajorCodeOf | App.tsx:82 | never empty: the major code when set, `UnknownCode` when empty |
| AppShell.SpecializationOf | App.tsx:83-85 | never empty: the English name when set, else the current-language name when set, else `General` |
| AppShell.FileNameSafe | App.tsx:82-91 | the file name ends with the date and `.json`, and everything before the date is safe characters |
| AppShell.ImportState | App.tsx:108-118 | no parse or no confirmation changes nothing; otherwise the file's document, keeping the API key and the signed-in user (the file's user only when nobody is signed in) |
| AppShell.ExportThenImport | App.tsx:73-118 | restoring a just-exported snapshot gives the document back without the `u1` user |
| AppShell.Login | App.tsx:56-62 | signing in sets the first user and changes nothing else |
| AppShell.SignInGuard | App.tsx:56-67 | the login screen shows after sign-in exactly when sign-in is on and there are no users, after sign-out exactly when sign-in is on, and restoring never signs the user out |
| ReferenceSites.Describe | modules/MappingModule.tsx:98-106 | prerequisite and co-requisite sites are keyed by course code, the textbook and reading sites refer to resources, the instructor sites to faculty, and all others to course ids |
| ReferenceSites.DeleteCourseSites | modules/MappingModule.tsx:428-434 | deleting a course leaves every site outside the course records as it was, so a site that named the course stops resolving |
| ReferenceSites.HandleDeleteSites | modules/LibraryModule.tsx:76-88 | deleting a resource removes it from the textbook site, keeps that site resolving, and leaves reading references dangling |
| ReferenceSites.CitationsRemoved | modules/LibraryModule.tsx:80-85 | removing one id's citations from every course removes exactly that id from the cited textbook ids and leaves the reading references |
| ReferenceSites.MergeSites | modules/JSONInputModule.tsx:256-292 | after a merge no retired id remains at the textbook site or in the library, and the reading site is unchanged |
| ReferenceSites.NormalizeDataResolvesSites | modules/SettingsModule.tsx:390-413 | after `normalizeData` the three join tables, the main lists and both instructor sites resolve |
| ReferenceSites.ResolvingSites | modules/SettingsModule.tsx:390-413 | a document whose join tables, main lists and instructor references name existing records resolves at all six of those sites |
| ReferenceSites.NormalizeDataKeepsSites | modules/SettingsModule.tsx:384-425 | `normalizeData` leaves the sub-block, prerequisite, co-requisite, textbook and reading sites as they were |

## Left out

- Unicode: `toLowerCase` and NFD decomposition with mark removal are modelled for ASCII, Latin-1
  and the Vietnamese letters (`Text.LowerChar`, `Text.BaseLetter`); other characters pass through
  unchanged. So a letter such as `ā` or `İ`, which JavaScript folds to an ASCII letter, is dropped
  by the text normaliser of the model instead. `toUpperCase` covers the same letters plus `ß` (to
  `SS`) and the micro sign (`Text.UpperOf`). Strings are sequences of code points; where the source
  measures `length` (the title sort, the topic-number test, the file-name sanitizer) the model
  counts UTF-16 code units (`Text.Utf16Length`).
- `JSON.parse`, file reading, downloads, `localStorage`, `confirm`/`alert`, and the clock: parsed
  input is an `Option` parameter, only the confirmed branch is modelled, and clock-derived ids and
  dates are parameters.
- AI calls (the canvas chat, auto-translate, the PDF import fetch) and the PDF/DOCX export
  services are outside the model. So is the PDF import's post-processing, apart from the
  topic-number formatting (`SyllabusEditor.FormatTopicNo`).
- Rendering, modal state and other UI state; the "two or more sub-blocks" choice modal is modelled
  only as "no change".
- `SettingsImport.NormalizeIncomingData`: the deep merge of `generalInfo` with the initial state is
  not modelled; the file's `generalInfo` replaces it whole. A record whose `name` object is
  missing cannot be represented.
- `ImportConflict.ImportFaculty`: records always have a `name`, so only the missing-e-mail and
  missing-code errors are modelled.
- Canonical.NormalizeDataCourseIdsDistinct: proved only when the old course ids are distinct. With
  duplicate old ids the collision check reads a map that lost overwritten values, and two courses
  can get the same id.
- `Object.keys` order and `Map` iteration order are abstracted to set semantics.
- `CourseMapping.DeleteCourse` leaves dangling references and `StructureEditor.DeleteSubBlock` drops
  member courses from the structure. Both are reproduced, not fixed.
- Objectives.SortByCategory: modelled as a stable insertion sort; the comparator's behaviour for
  objectives with no category (rank -1) follows `indexOf`.
- Objectives.ToggleCourseObjectiveTwice: restores membership in general, and the exact list only when
  the key was absent.
- SyllabusEditor.UpdateAssessment: an out-of-range row index is not modelled (the editor only
  passes indices of rows on screen).
- SyllabusEditor.NextCoverage: a coverage value outside the four levels is not representable.
- SyllabusEditor.PasteImport: a pasted record is the nine syllabus fields, each present or absent;
  keys a course does not have, and `null` values, are not modelled.
- SyllabusEditor.PasteImport: the handlers read the course on screen, which is passed in; the
  model does not capture a stale screen copy.
- The credit summary's total and its difference from the course credits are display values and
  are not modelled.
- SyllabusEditor.TotalHours: activity hours and `hoursPerCredit` are natural numbers; fractional
  hours are not modelled.
- The course-objective key site after `normalizeData` is described by
  `Canonical.NormalizeDataResolvesKeys` rather than as a per-site resolution fact.
- Handlers not modelled: `updateCourseName`, `addSubBlock`, `updateSubBlock`,
  `updateSubBlockMinCredits`, the objective and PEO list editors, and the translate actions. They
  edit text fields or sub-block metadata, and hold no reference this model tracks.
- `CatalogCsv.ReadRows`: the loop body is one `LineCourse` step, covering the skip of blank and
  short lines and the row read.
- Floating-point statistics and percentages, and chart geometry.
- JavaScript numbers are doubles; the model's numbers are unbounded integers. `parseInt` rounds
  once a value passes 2^53, and `String(n)` switches to exponent form from 10^21. The laws below
  hold in the source only for values below 2^53 in magnitude:
- Numbers.ParseDigits: in the source it holds only while the digits' value is below 2^53.
- Numbers.ParseIntToString: in the source it holds only for integers below 2^53 in magnitude.
- SyllabusEditor.PlainNumberValue: in the source it holds only while the digits' value is below 2^53.
- SyllabusEditor.FormatPlainNumber: in the source the number after `CONT ` is rounded once the
  digits' value passes 2^53.
- CatalogCsv.RowRoundTrip: in the source it holds only for credits and semesters below 2^53 in
  magnitude.
- CatalogCsv.ExportImportRoundTrip: in the source it holds only for credits and semesters below
  2^53 in magnitude.
- CatalogCsv.ExportThenImportIsIdentity: in the source it holds only for credits and semesters
  below 2^53 in magnitude.
- SettingsImport.NormalizeCourse: credits are integers in the model; a fractional `credits` such
  as 2.5 in an imported file passes the `typeof` test and is kept by the source, but cannot be
  represented here.
