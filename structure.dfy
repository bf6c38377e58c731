/**
 * Program-structure membership: the four main lists (general, fundamental, specialised,
 * graduation) and the elective sub-blocks hanging under them, and the operations that move
 * a course between them when its type changes. Placement is counted per course id: how
 * many times the id occurs over all main lists and all sub-blocks.
 */
module StructureEditor {

  import opened Wrappers
  import opened Types
  import opened Seqs

  // ---------------------------------------------------------------------------------------
  // Counting placements

  /** Occurrences of `id` over the four main lists. */
  function MainCount(ps: ProgramStructure, id: string): nat
  {
    Count(ps.gen, id) + Count(ps.fund, id) + Count(ps.spec, id) + Count(ps.grad, id)
  }

  /** Occurrences of `id` over all sub-blocks. */
  function SubCount(sbs: seq<SubBlock>, id: string): nat
  {
    if sbs == [] then 0 else Count(sbs[0].courseIds, id) + SubCount(sbs[1..], id)
  }

  /** Number of sub-blocks whose id is `target`. */
  function IdCount(sbs: seq<SubBlock>, target: string): nat
  {
    if sbs == [] then 0 else (if sbs[0].id == target then 1 else 0) + IdCount(sbs[1..], target)
  }

  /** Occurrences of a course id over the whole structure. */
  function Placements(m: MoetInfo, id: string): nat
  {
    MainCount(m.programStructure, id) + SubCount(m.subBlocks, id)
  }

  lemma {:induction false} SubCountZero(sbs: seq<SubBlock>, id: string)
    ensures SubCount(sbs, id) == 0 <==> forall sb :: sb in sbs ==> id !in sb.courseIds
  {
    if sbs != [] {
      SubCountZero(sbs[1..], id);
      assert forall sb :: sb in sbs <==> sb == sbs[0] || sb in sbs[1..];
    }
  }

  // ---------------------------------------------------------------------------------------
  // List operations

  /** `subBlocks.map(f)`. */
  function MapSubBlocks(sbs: seq<SubBlock>, f: SubBlock -> SubBlock): (r: seq<SubBlock>)
    ensures |r| == |sbs| && forall i :: 0 <= i < |sbs| ==> r[i] == f(sbs[i])
  {
    if sbs == [] then [] else [f(sbs[0])] + MapSubBlocks(sbs[1..], f)
  }

  /** Every sub-block without the course. */
  function StripFromSubBlocks(sbs: seq<SubBlock>, id: string): seq<SubBlock>
  {
    MapSubBlocks(sbs, (sb: SubBlock) => sb.(courseIds := Remove(sb.courseIds, id)))
  }

  /** The course appended to every sub-block with id `target`. */
  function AppendToSubBlock(sbs: seq<SubBlock>, target: string, id: string): seq<SubBlock>
  {
    MapSubBlocks(sbs, (sb: SubBlock) => if sb.id == target then sb.(courseIds := sb.courseIds + [id]) else sb)
  }

  /** The course appended to sub-block `target` unless already there. */
  function AddToSubBlockIfAbsent(sbs: seq<SubBlock>, target: string, id: string): seq<SubBlock>
  {
    MapSubBlocks(sbs, (sb: SubBlock) => if sb.id == target && id !in sb.courseIds then sb.(courseIds := sb.courseIds + [id]) else sb)
  }

  /** The course removed from sub-block `target`. */
  function RemoveFromSubBlock(sbs: seq<SubBlock>, target: string, id: string): seq<SubBlock>
  {
    MapSubBlocks(sbs, (sb: SubBlock) => if sb.id == target then sb.(courseIds := Remove(sb.courseIds, id)) else sb)
  }

  /** The course removed from every sub-block under main block `parent`. */
  function RemoveUnderParent(sbs: seq<SubBlock>, parent: Block, id: string): seq<SubBlock>
  {
    MapSubBlocks(sbs, (sb: SubBlock) => if sb.parentBlockId == parent then sb.(courseIds := Remove(sb.courseIds, id)) else sb)
  }

  /** The course removed from all four main lists. */
  function StripFromMainLists(ps: ProgramStructure, id: string): (r: ProgramStructure)
    ensures MainCount(r, id) == 0
    ensures forall y :: y != id ==> MainCount(r, y) == MainCount(ps, y)
  {
    forall y | y != id ensures MainCount(ProgramStructure(Remove(ps.gen, id), Remove(ps.fund, id),
                                                          Remove(ps.spec, id), Remove(ps.grad, id)), y)
                               == MainCount(ps, y) {
      CountRemoveOther(ps.gen, id, y);
      CountRemoveOther(ps.fund, id, y);
      CountRemoveOther(ps.spec, id, y);
      CountRemoveOther(ps.grad, id, y);
    }
    ProgramStructure(Remove(ps.gen, id), Remove(ps.fund, id), Remove(ps.spec, id), Remove(ps.grad, id))
  }

  /** Stripping empties the course from every sub-block, keeps every other course's count
      and keeps the sub-block ids. */
  lemma {:induction false} SubCountStrip(sbs: seq<SubBlock>, id: string, y: string, t: string)
    ensures SubCount(StripFromSubBlocks(sbs, id), id) == 0
    ensures y != id ==> SubCount(StripFromSubBlocks(sbs, id), y) == SubCount(sbs, y)
    ensures IdCount(StripFromSubBlocks(sbs, id), t) == IdCount(sbs, t)
  {
    if sbs != [] {
      SubCountStrip(sbs[1..], id, y, t);
      if y != id {
        CountRemoveOther(sbs[0].courseIds, id, y);
      }
    }
  }

  /** Appending adds one occurrence per sub-block carrying the target id. */
  lemma {:induction false} SubCountAppend(sbs: seq<SubBlock>, target: string, id: string, y: string)
    ensures SubCount(AppendToSubBlock(sbs, target, id), id) == SubCount(sbs, id) + IdCount(sbs, target)
    ensures y != id ==> SubCount(AppendToSubBlock(sbs, target, id), y) == SubCount(sbs, y)
  {
    if sbs != [] {
      SubCountAppend(sbs[1..], target, id, y);
      CountAppend(sbs[0].courseIds, [id], id);
      CountAppend(sbs[0].courseIds, [id], y);
    }
  }

  /** Removing the sub-blocks that satisfy `p` removes exactly their occurrences. */
  lemma {:induction false} SubCountFilter(sbs: seq<SubBlock>, p: SubBlock -> bool, id: string)
    ensures SubCount(Filter(sbs, p), id) <= SubCount(sbs, id)
    ensures (forall sb :: sb in sbs && !p(sb) ==> id !in sb.courseIds) ==> SubCount(Filter(sbs, p), id) == SubCount(sbs, id)
  {
    if sbs != [] {
      SubCountFilter(sbs[1..], p, id);
      assert forall sb :: sb in sbs[1..] ==> sb in sbs;
    }
  }

  // ---------------------------------------------------------------------------------------
  // Installing a new structure

  /** The document with new courses, main lists and sub-blocks. */
  function Restructure(st: AppState, cs: seq<Course>, ps: ProgramStructure, sbs: seq<SubBlock>): (r: AppState)
    ensures r.courses == cs && r.Moet().programStructure == ps && r.Moet().subBlocks == sbs
    ensures r == st.(courses := cs, generalInfo := r.generalInfo)
    ensures r.generalInfo == st.generalInfo.(moetInfo := r.Moet())
    ensures r.Moet() == st.Moet().(programStructure := ps, subBlocks := sbs)
  {
    st.(courses := cs).WithMoet(st.Moet().(programStructure := ps, subBlocks := sbs))
  }

  /** The first course with the given id (`courses.find`). */
  function FindCourse(cs: seq<Course>, id: string): (r: Option<Course>)
    ensures r.Some? ==> r.value in cs && r.value.id == id
    ensures r.None? <==> id !in CourseIds(cs)
  {
    if cs == [] then None
    else if cs[0].id == id then Some(cs[0])
    else
      assert forall c :: c in cs <==> c == cs[0] || c in cs[1..];
      FindCourse(cs[1..], id)
  }

  /** The main block a required course joins, inferred from its knowledge area. */
  function InferredBlock(knowledgeAreaId: string): (b: Block)
    ensures b != Grad
    ensures b == Gen <==> knowledgeAreaId == "gen_ed"
    ensures b == Fund <==> knowledgeAreaId == "fund_eng" || knowledgeAreaId == "math_sci"
  {
    if knowledgeAreaId == "gen_ed" then Gen
    else if knowledgeAreaId == "fund_eng" || knowledgeAreaId == "math_sci" then Fund
    else Spec
  }

  // ---------------------------------------------------------------------------------------
  // Catalog screen: course type changes

  /** `handleCourseTypeChange(id, 'REQUIRED')`: the course becomes required, leaves every
      sub-block and joins (once) the main list inferred from its knowledge area. An unknown
      id changes nothing. */
  function MakeRequired(st: AppState, courseId: string): (r: AppState)
    ensures courseId !in CourseIds(st.courses) ==> r == st
  {
    match FindCourse(st.courses, courseId)
    case None => st
    case Some(c) =>
      var b := InferredBlock(c.knowledgeAreaId);
      var ps := st.Moet().programStructure;
      Restructure(st, SetCourseType(st.courses, courseId, Required),
                  ps.Set(b, AddIfAbsent(ps.Get(b), courseId)), StripFromSubBlocks(st.Moet().subBlocks, courseId))
  }

  /** After `MakeRequired` on a known course: it is in no sub-block, it is in the inferred
      main list (once, when it was there at most once), the other main lists and every
      other course's sub-block placements are unchanged, and the course is required. */
  lemma MakeRequiredPlacement(st: AppState, courseId: string, y: string)
    requires courseId in CourseIds(st.courses)
    ensures var r, b := MakeRequired(st, courseId), InferredBlock(FindCourse(st.courses, courseId).value.knowledgeAreaId);
      && SubCount(r.Moet().subBlocks, courseId) == 0
      && courseId in r.Moet().programStructure.Get(b)
      && (Count(st.Moet().programStructure.Get(b), courseId) <= 1 ==> Count(r.Moet().programStructure.Get(b), courseId) == 1)
      && (forall o :: o != b ==> r.Moet().programStructure.Get(o) == st.Moet().programStructure.Get(o))
      && (y != courseId ==> SubCount(r.Moet().subBlocks, y) == SubCount(st.Moet().subBlocks, y))
      && forall c :: c in r.courses && c.id == courseId ==> c.kind == Required
  {
    SubCountStrip(st.Moet().subBlocks, courseId, y, "");
    var r := MakeRequired(st, courseId);
    forall c | c in r.courses && c.id == courseId ensures c.kind == Required {
      var i :| 0 <= i < |r.courses| && r.courses[i] == c;
    }
  }

  /** `confirmAddToBlock`: the course takes the new type, leaves every main list and every
      sub-block, and is appended to the chosen sub-block. */
  function ConfirmAddToBlock(st: AppState, courseId: string, newType: CourseType, blockId: string): AppState
  {
    Restructure(st, SetCourseType(st.courses, courseId, newType),
                StripFromMainLists(st.Moet().programStructure, courseId),
                AppendToSubBlock(StripFromSubBlocks(st.Moet().subBlocks, courseId), blockId, courseId))
  }

  /** After `confirmAddToBlock` the course occurs once per sub-block with the chosen id and
      nowhere else, so exactly once when that id is unique; it ends every such sub-block;
      every other course keeps its placements. */
  lemma ConfirmAddToBlockPlacement(st: AppState, courseId: string, newType: CourseType, blockId: string, y: string)
    ensures var r := ConfirmAddToBlock(st, courseId, newType, blockId);
      && Placements(r.Moet(), courseId) == IdCount(st.Moet().subBlocks, blockId)
      && MainCount(r.Moet().programStructure, courseId) == 0
      && (forall sb :: sb in r.Moet().subBlocks && sb.id == blockId ==> sb.courseIds[|sb.courseIds| - 1] == courseId)
      && (y != courseId ==> Placements(r.Moet(), y) == Placements(st.Moet(), y))
  {
    var sbs := st.Moet().subBlocks;
    var stripped := StripFromSubBlocks(sbs, courseId);
    SubCountStrip(sbs, courseId, y, blockId);
    SubCountAppend(stripped, blockId, courseId, y);
    var r := ConfirmAddToBlock(st, courseId, newType, blockId);
    forall sb | sb in r.Moet().subBlocks && sb.id == blockId ensures sb.courseIds[|sb.courseIds| - 1] == courseId {
      var i :| 0 <= i < |r.Moet().subBlocks| && r.Moet().subBlocks[i] == sb;
    }
  }

  /** `createAndAddToBlock`: a new sub-block holding only the course, after every existing
      sub-block (all without the course); the course leaves every main list. */
  function CreateAndAddToBlock(st: AppState, courseId: string, newType: CourseType, newBlockId: string,
                               name: LocalizedString, parent: Block): AppState
  {
    var newBlock := SubBlock(newBlockId, name, parent, 3, [courseId], Some(EmptyText));
    Restructure(st, SetCourseType(st.courses, courseId, newType),
                StripFromMainLists(st.Moet().programStructure, courseId),
                StripFromSubBlocks(st.Moet().subBlocks, courseId) + [newBlock])
  }

  lemma {:induction false} SubCountSnoc(sbs: seq<SubBlock>, sb: SubBlock, id: string)
    ensures SubCount(sbs + [sb], id) == SubCount(sbs, id) + Count(sb.courseIds, id)
  {
    if sbs == [] {
      assert [] + [sb] == [sb];
    } else {
      assert (sbs + [sb])[1..] == sbs[1..] + [sb];
      SubCountSnoc(sbs[1..], sb, id);
    }
  }

  /** After `createAndAddToBlock` the course occurs exactly once, in the new last
      sub-block; every other course keeps its placements. */
  lemma CreateAndAddToBlockPlacement(st: AppState, courseId: string, newType: CourseType, newBlockId: string,
                                     name: LocalizedString, parent: Block, y: string)
    ensures var r := CreateAndAddToBlock(st, courseId, newType, newBlockId, name, parent);
      && Placements(r.Moet(), courseId) == 1
      && r.Moet().subBlocks[|r.Moet().subBlocks| - 1].courseIds == [courseId]
      && r.Moet().subBlocks[|r.Moet().subBlocks| - 1].id == newBlockId
      && (y != courseId ==> Placements(r.Moet(), y) == Placements(st.Moet(), y))
  {
    var sbs := st.Moet().subBlocks;
    var newBlock := SubBlock(newBlockId, name, parent, 3, [courseId], Some(EmptyText));
    SubCountStrip(sbs, courseId, y, newBlockId);
    SubCountSnoc(StripFromSubBlocks(sbs, courseId), newBlock, courseId);
    SubCountSnoc(StripFromSubBlocks(sbs, courseId), newBlock, y);
  }

  // ---------------------------------------------------------------------------------------
  // Structure screen

  /** The default name of the sub-block `handleTypeChange` creates. */
  const FirstElectiveName := LocalizedString("Kh\U{1ED1}i t\U{1EF1} ch\U{1ECD}n 1", "Elective Block 1")

  /** `handleTypeChange(courseId, newType, block)`: to required, the course leaves every
      sub-block and joins the block's main list once; to an elective type, it leaves the
      block's main list and joins the block's only sub-block, or a new one when the block
      has none; with two or more sub-blocks the choice is left to the user and nothing
      changes. `newSubId` is the id a new sub-block gets. */
  function HandleTypeChange(st: AppState, courseId: string, newType: CourseType, block: Block, newSubId: string)
    : (r: AppState)
    ensures newType != Required && |Filter(st.Moet().subBlocks, (sb: SubBlock) => sb.parentBlockId == block)| >= 2 ==> r == st
  {
    var m := st.Moet();
    var ps := m.programStructure;
    var cs := SetCourseType(st.courses, courseId, newType);
    if newType == Required then
      Restructure(st, cs, ps.Set(block, AddIfAbsent(ps.Get(block), courseId)), StripFromSubBlocks(m.subBlocks, courseId))
    else
      var under := Filter(m.subBlocks, (sb: SubBlock) => sb.parentBlockId == block);
      if |under| == 0 then
        Restructure(st, cs, ps.Set(block, Remove(ps.Get(block), courseId)),
                    m.subBlocks + [SubBlock(newSubId, FirstElectiveName, block, 3, [courseId], Some(EmptyText))])
      else if |under| == 1 then
        Restructure(st, cs, ps.Set(block, Remove(ps.Get(block), courseId)),
                    AddToSubBlockIfAbsent(m.subBlocks, under[0].id, courseId))
      else st
  }

  /** Changing to required: the course is in no sub-block and in the block's main list
      (once, when it was there at most once); the other main lists are unchanged. */
  lemma HandleTypeChangeRequired(st: AppState, courseId: string, block: Block, newSubId: string)
    ensures var r := HandleTypeChange(st, courseId, Required, block, newSubId);
      && SubCount(r.Moet().subBlocks, courseId) == 0
      && courseId in r.Moet().programStructure.Get(block)
      && (Count(st.Moet().programStructure.Get(block), courseId) <= 1 ==>
            Count(r.Moet().programStructure.Get(block), courseId) == 1)
      && forall o :: o != block ==> r.Moet().programStructure.Get(o) == st.Moet().programStructure.Get(o)
  {
    SubCountStrip(st.Moet().subBlocks, courseId, "", "");
  }

  /** Changing to an elective type under a block with no sub-block: the course leaves the
      block's main list and a new last sub-block under the block holds only it. */
  lemma HandleTypeChangeNewSubBlock(st: AppState, courseId: string, newType: CourseType, block: Block, newSubId: string)
    requires newType != Required
    requires forall sb :: sb in st.Moet().subBlocks ==> sb.parentBlockId != block
    ensures var r := HandleTypeChange(st, courseId, newType, block, newSubId);
      && courseId !in r.Moet().programStructure.Get(block)
      && |r.Moet().subBlocks| == |st.Moet().subBlocks| + 1
      && r.Moet().subBlocks[..|st.Moet().subBlocks|] == st.Moet().subBlocks
      && r.Moet().subBlocks[|st.Moet().subBlocks|].courseIds == [courseId]
      && r.Moet().subBlocks[|st.Moet().subBlocks|].parentBlockId == block
      && forall o :: o != block ==> r.Moet().programStructure.Get(o) == st.Moet().programStructure.Get(o)
  {
    NoneMatch(st.Moet().subBlocks, (sb: SubBlock) => sb.parentBlockId == block);
  }

  /** Changing to an elective type under a block with exactly one sub-block: the course
      leaves the block's main list and is in that sub-block, added only if it was absent. */
  lemma HandleTypeChangeOnlySubBlock(st: AppState, courseId: string, newType: CourseType, block: Block,
                                     newSubId: string, k: nat)
    requires newType != Required
    requires k < |st.Moet().subBlocks| && st.Moet().subBlocks[k].parentBlockId == block
    requires forall i :: 0 <= i < |st.Moet().subBlocks| && i != k ==> st.Moet().subBlocks[i].parentBlockId != block
    ensures var r, sb := HandleTypeChange(st, courseId, newType, block, newSubId), st.Moet().subBlocks[k];
      && courseId !in r.Moet().programStructure.Get(block)
      && |r.Moet().subBlocks| == |st.Moet().subBlocks|
      && courseId in r.Moet().subBlocks[k].courseIds
      && Count(r.Moet().subBlocks[k].courseIds, courseId) == (if courseId in sb.courseIds then Count(sb.courseIds, courseId) else 1)
  {
    var sbs := st.Moet().subBlocks;
    var p := (sb: SubBlock) => sb.parentBlockId == block;
    OnlyMatch(sbs, p, k);
    var sb := sbs[k];
    if courseId !in sb.courseIds {
      CountAppend(sb.courseIds, [courseId], courseId);
    }
  }

  /** When exactly the element at k satisfies `p`, filtering leaves just that element. */
  lemma {:induction false} OnlyMatch(sbs: seq<SubBlock>, p: SubBlock -> bool, k: nat)
    requires k < |sbs| && p(sbs[k])
    requires forall i :: 0 <= i < |sbs| && i != k ==> !p(sbs[i])
    ensures Filter(sbs, p) == [sbs[k]]
  {
    if k == 0 {
      forall x | x in sbs[1..] ensures !p(x) {
        var i :| 0 <= i < |sbs[1..]| && sbs[1..][i] == x;
        assert sbs[i + 1] == x;
      }
      FilterAll(sbs[1..], (x: SubBlock) => !p(x));
      NoneMatch(sbs[1..], p);
    } else {
      OnlyMatch(sbs[1..], p, k - 1);
    }
  }

  lemma {:induction false} NoneMatch(sbs: seq<SubBlock>, p: SubBlock -> bool)
    requires forall x :: x in sbs ==> !p(x)
    ensures Filter(sbs, p) == []
  {
    if sbs != [] {
      assert sbs[0] in sbs;
      NoneMatch(sbs[1..], p);
    }
  }

  /** `confirmMoveToSubBlock`: the course leaves the current block's main list and every
      sub-block, then is appended to the chosen sub-block. */
  function ConfirmMoveToSubBlock(st: AppState, courseId: string, currentBlock: Block, targetType: CourseType,
                                 subBlockId: string): AppState
  {
    var ps := st.Moet().programStructure;
    Restructure(st, SetCourseType(st.courses, courseId, targetType),
                ps.Set(currentBlock, Remove(ps.Get(currentBlock), courseId)),
                AppendToSubBlock(StripFromSubBlocks(st.Moet().subBlocks, courseId), subBlockId, courseId))
  }

  /** After the move the course occurs once per sub-block with the chosen id (so once when
      the id is unique) and not in the current block's main list; the other main lists and
      other courses' sub-block placements are unchanged. */
  lemma ConfirmMoveToSubBlockPlacement(st: AppState, courseId: string, currentBlock: Block, targetType: CourseType,
                                       subBlockId: string, y: string)
    ensures var r := ConfirmMoveToSubBlock(st, courseId, currentBlock, targetType, subBlockId);
      && SubCount(r.Moet().subBlocks, courseId) == IdCount(st.Moet().subBlocks, subBlockId)
      && courseId !in r.Moet().programStructure.Get(currentBlock)
      && (forall o :: o != currentBlock ==> r.Moet().programStructure.Get(o) == st.Moet().programStructure.Get(o))
      && (y != courseId ==> SubCount(r.Moet().subBlocks, y) == SubCount(st.Moet().subBlocks, y))
  {
    var sbs := st.Moet().subBlocks;
    SubCountStrip(sbs, courseId, y, subBlockId);
    SubCountAppend(StripFromSubBlocks(sbs, courseId), subBlockId, courseId, y);
  }

  /** `deleteSubBlock`: the sub-block goes; its courses are not put back anywhere. */
  function DeleteSubBlock(st: AppState, id: string): (r: AppState)
    ensures forall sb :: sb in r.Moet().subBlocks <==> sb in st.Moet().subBlocks && sb.id != id
    ensures r == st.WithMoet(st.Moet().(subBlocks := r.Moet().subBlocks))
  {
    st.WithMoet(st.Moet().(subBlocks := Filter(st.Moet().subBlocks, (sb: SubBlock) => sb.id != id)))
  }

  /** Deleting a sub-block never adds a placement, and a course placed only in the deleted
      sub-block is placed nowhere afterwards. */
  lemma DeleteSubBlockDropsCourses(st: AppState, id: string, c: string)
    ensures Placements(DeleteSubBlock(st, id).Moet(), c) <= Placements(st.Moet(), c)
    ensures MainCount(st.Moet().programStructure, c) == 0 &&
            (forall sb :: sb in st.Moet().subBlocks && c in sb.courseIds ==> sb.id == id) ==>
              Placements(DeleteSubBlock(st, id).Moet(), c) == 0
  {
    var p := (sb: SubBlock) => sb.id != id;
    SubCountFilter(st.Moet().subBlocks, p, c);
    SubCountZero(Filter(st.Moet().subBlocks, p), c);
  }

  /** `removeCourseFromStructure(courseId, block)`: from the block's main list when it is
      there; otherwise from every sub-block under the block. */
  function RemoveCourseFromStructure(st: AppState, courseId: string, block: Block): (r: AppState)
    ensures courseId !in r.Moet().programStructure.Get(block)
    ensures courseId in st.Moet().programStructure.Get(block) ==> r.Moet().subBlocks == st.Moet().subBlocks
    ensures courseId !in st.Moet().programStructure.Get(block) ==> r.Moet().programStructure == st.Moet().programStructure
    ensures courseId in st.Moet().programStructure.Get(block) ==>
              r.Moet().programStructure.Get(block) == Remove(st.Moet().programStructure.Get(block), courseId)
    ensures courseId !in st.Moet().programStructure.Get(block) ==>
              |r.Moet().subBlocks| == |st.Moet().subBlocks| &&
              forall i :: 0 <= i < |st.Moet().subBlocks| ==>
                r.Moet().subBlocks[i] == if st.Moet().subBlocks[i].parentBlockId == block
                                         then st.Moet().subBlocks[i].(courseIds := Remove(st.Moet().subBlocks[i].courseIds, courseId))
                                         else st.Moet().subBlocks[i]
    ensures r == st.WithMoet(r.Moet()) && r.Moet() == st.Moet().(programStructure := r.Moet().programStructure,
                                                                   subBlocks := r.Moet().subBlocks)
  {
    var m := st.Moet();
    var list := m.programStructure.Get(block);
    if courseId in list then st.WithMoet(m.(programStructure := m.programStructure.Set(block, Remove(list, courseId))))
    else st.WithMoet(m.(subBlocks := RemoveUnderParent(m.subBlocks, block, courseId)))
  }

  /** After removal the course is in neither the block's main list nor, when it was not in
      that list, any sub-block under the block; the other main lists are untouched. */
  lemma RemoveCourseFromStructureFacts(st: AppState, courseId: string, block: Block)
    ensures var r := RemoveCourseFromStructure(st, courseId, block);
      && (forall o :: o != block ==> r.Moet().programStructure.Get(o) == st.Moet().programStructure.Get(o))
      && (courseId !in st.Moet().programStructure.Get(block) ==>
            forall sb :: sb in r.Moet().subBlocks && sb.parentBlockId == block ==> courseId !in sb.courseIds)
  {
    var r := RemoveCourseFromStructure(st, courseId, block);
    if courseId !in st.Moet().programStructure.Get(block) {
      forall sb | sb in r.Moet().subBlocks && sb.parentBlockId == block ensures courseId !in sb.courseIds {
        var i :| 0 <= i < |r.Moet().subBlocks| && r.Moet().subBlocks[i] == sb;
      }
    }
  }

  /** `addCourseToMainList`: when the course is not in the block's main list, it is appended
      and the course becomes required; otherwise nothing changes. */
  function AddCourseToMainList(st: AppState, courseId: string, block: Block): (r: AppState)
    ensures courseId in st.Moet().programStructure.Get(block) ==> r == st
    ensures courseId !in st.Moet().programStructure.Get(block) ==>
              && r.Moet().programStructure.Get(block) == st.Moet().programStructure.Get(block) + [courseId]
              && r.courses == SetCourseType(st.courses, courseId, Required)
    ensures courseId in r.Moet().programStructure.Get(block)
  {
    var m := st.Moet();
    var list := m.programStructure.Get(block);
    if courseId in list then st
    else Restructure(st, SetCourseType(st.courses, courseId, Required),
                     m.programStructure.Set(block, list + [courseId]), m.subBlocks)
  }

  /** Adding to a main list twice is adding once, and an absent course ends up there once. */
  lemma AddCourseToMainListIdempotent(st: AppState, courseId: string, block: Block)
    ensures var r := AddCourseToMainList(st, courseId, block);
      AddCourseToMainList(r, courseId, block) == r
    ensures courseId !in st.Moet().programStructure.Get(block) ==>
              Count(AddCourseToMainList(st, courseId, block).Moet().programStructure.Get(block), courseId) == 1
  {
    var list := st.Moet().programStructure.Get(block);
    if courseId !in list {
      CountAppend(list, [courseId], courseId);
    }
  }

  /** `addCourseToSubBlock`: the course appended to the sub-block unless already there. */
  function AddCourseToSubBlock(st: AppState, subBlockId: string, courseId: string): (r: AppState)
    ensures forall sb :: sb in r.Moet().subBlocks && sb.id == subBlockId ==> courseId in sb.courseIds
    ensures |r.Moet().subBlocks| == |st.Moet().subBlocks|
    ensures forall i :: 0 <= i < |st.Moet().subBlocks| ==>
              r.Moet().subBlocks[i] == if st.Moet().subBlocks[i].id == subBlockId
                                       then st.Moet().subBlocks[i].(courseIds := AddIfAbsent(st.Moet().subBlocks[i].courseIds, courseId))
                                       else st.Moet().subBlocks[i]
    ensures r == st.WithMoet(st.Moet().(subBlocks := r.Moet().subBlocks))
  {
    var sbs := AddToSubBlockIfAbsent(st.Moet().subBlocks, subBlockId, courseId);
    assert forall sb :: sb in sbs && sb.id == subBlockId ==> courseId in sb.courseIds by {
      forall sb | sb in sbs && sb.id == subBlockId ensures courseId in sb.courseIds {
        var i :| 0 <= i < |sbs| && sbs[i] == sb;
      }
    }
    st.WithMoet(st.Moet().(subBlocks := sbs))
  }

  /** Adding to a sub-block twice is adding once. */
  lemma AddCourseToSubBlockIdempotent(st: AppState, subBlockId: string, courseId: string)
    ensures var r := AddCourseToSubBlock(st, subBlockId, courseId);
      AddCourseToSubBlock(r, subBlockId, courseId) == r
  {
    var r := AddCourseToSubBlock(st, subBlockId, courseId);
    var sbs := r.Moet().subBlocks;
    assert AddToSubBlockIfAbsent(sbs, subBlockId, courseId) == sbs;
  }

  /** `removeCourseFromSubBlock`: the course taken out of the named sub-block. */
  function RemoveCourseFromSubBlock(st: AppState, subBlockId: string, courseId: string): (r: AppState)
    ensures forall sb :: sb in r.Moet().subBlocks && sb.id == subBlockId ==> courseId !in sb.courseIds
    ensures |r.Moet().subBlocks| == |st.Moet().subBlocks|
    ensures forall i :: 0 <= i < |st.Moet().subBlocks| ==>
              r.Moet().subBlocks[i] == if st.Moet().subBlocks[i].id == subBlockId
                                       then st.Moet().subBlocks[i].(courseIds := Remove(st.Moet().subBlocks[i].courseIds, courseId))
                                       else st.Moet().subBlocks[i]
    ensures r == st.WithMoet(st.Moet().(subBlocks := r.Moet().subBlocks))
  {
    var sbs := RemoveFromSubBlock(st.Moet().subBlocks, subBlockId, courseId);
    assert forall sb :: sb in sbs && sb.id == subBlockId ==> courseId !in sb.courseIds by {
      forall sb | sb in sbs && sb.id == subBlockId ensures courseId !in sb.courseIds {
        var i :| 0 <= i < |sbs| && sbs[i] == sb;
      }
    }
    st.WithMoet(st.Moet().(subBlocks := sbs))
  }

  /** Removing a course from a sub-block undoes adding it there when it was absent. */
  lemma AddThenRemoveSubBlock(st: AppState, subBlockId: string, courseId: string)
    requires forall sb :: sb in st.Moet().subBlocks && sb.id == subBlockId ==> courseId !in sb.courseIds
    ensures RemoveCourseFromSubBlock(AddCourseToSubBlock(st, subBlockId, courseId), subBlockId, courseId) == st
  {
    AddThenRemoveList(st.Moet().subBlocks, subBlockId, courseId);
  }

  lemma AddThenRemoveList(sbs: seq<SubBlock>, target: string, id: string)
    requires forall sb :: sb in sbs && sb.id == target ==> id !in sb.courseIds
    ensures RemoveFromSubBlock(AddToSubBlockIfAbsent(sbs, target, id), target, id) == sbs
  {
    var back := RemoveFromSubBlock(AddToSubBlockIfAbsent(sbs, target, id), target, id);
    forall i | 0 <= i < |sbs| ensures back[i] == sbs[i] {
      if sbs[i].id == target {
        assert sbs[i] in sbs;
        RemoveAppended(sbs[i].courseIds, id);
      }
    }
  }
}
