/**
 * The library screen: the usage index (which courses list each resource), the search
 * filter, and adding, saving and deleting resources. Deleting cascades into the course
 * textbook lists.
 */
module LibraryEditor {

  import opened Wrappers
  import opened Types
  import opened Seqs
  import opened Text
  import opened LibraryMerge

  // ---------------------------------------------------------------------------------------
  // Usage index

  /** The course codes that list a resource, split by the entry's type. */
  datatype Usage = Usage(textbooks: seq<string>, references: seq<string>)

  const NoUsage := Usage([], [])

  function Plus(u: Usage, v: Usage): Usage
  {
    Usage(u.textbooks + v.textbooks, u.references + v.references)
  }

  /** What one textbook entry of the course with code `code` records for resource `resId`. */
  function EntryUsage(code: string, tb: Textbook, resId: string): Usage
  {
    if tb.resourceId != resId then NoUsage
    else if tb.kind == TextbookType then Usage([code], [])
    else Usage([], [code])
  }

  /** What a course's textbook entries record for `resId`, entry by entry. */
  function EntriesUsage(code: string, tbs: seq<Textbook>, resId: string): Usage
  {
    if tbs == [] then NoUsage
    else Plus(EntriesUsage(code, tbs[..|tbs| - 1], resId), EntryUsage(code, tbs[|tbs| - 1], resId))
  }

  /** What the course list records for `resId`, course by course. */
  function UsageOf(cs: seq<Course>, resId: string): Usage
  {
    if cs == [] then NoUsage
    else Plus(UsageOf(cs[..|cs| - 1], resId), EntriesUsage(cs[|cs| - 1].code, cs[|cs| - 1].textbooks, resId))
  }

  /** Whether the course lists the resource with an entry of the given type. */
  predicate ListsAs(c: Course, resId: string, kind: ResourceType)
  {
    exists j :: 0 <= j < |c.textbooks| && c.textbooks[j].resourceId == resId && c.textbooks[j].kind == kind
  }

  lemma EntriesUsageStep(code: string, tbs: seq<Textbook>, j: nat, resId: string)
    requires j < |tbs|
    ensures EntriesUsage(code, tbs[..j + 1], resId)
         == Plus(EntriesUsage(code, tbs[..j], resId), EntryUsage(code, tbs[j], resId))
  {
    assert tbs[..j + 1][..j] == tbs[..j];
  }

  lemma UsageOfStep(cs: seq<Course>, i: nat, resId: string)
    requires i < |cs|
    ensures UsageOf(cs[..i + 1], resId) == Plus(UsageOf(cs[..i], resId), EntriesUsage(cs[i].code, cs[i].textbooks, resId))
  {
    assert cs[..i + 1][..i] == cs[..i];
  }

  /** The first pass of `resourceUsage`: an empty record for every library id. */
  method EmptyUsage(library: seq<LibraryResource>) returns (usage: map<string, Usage>)
    ensures usage.Keys == LibraryIds(library)
    ensures forall k :: k in usage ==> usage[k] == NoUsage
  {
    usage := map[];
    var n := 0;
    while n < |library|
      invariant 0 <= n <= |library|
      invariant usage.Keys == LibraryIds(library[..n])
      invariant forall k :: k in usage ==> usage[k] == NoUsage
    {
      assert LibraryIds(library[..n + 1]) == LibraryIds(library[..n]) + {library[n].id} by {
        assert library[..n + 1] == library[..n] + [library[n]];
      }
      usage := usage[library[n].id := NoUsage];
      n := n + 1;
    }
    assert library[..n] == library;
  }

  /** The index holds `base` plus what the first j entries record, for every key. */
  ghost predicate RecordedUpTo(usage: map<string, Usage>, base: map<string, Usage>, code: string,
                               tbs: seq<Textbook>, j: nat)
    requires j <= |tbs|
  {
    && usage.Keys == base.Keys
    && forall k :: k in usage ==> usage[k] == Plus(base[k], EntriesUsage(code, tbs[..j], k))
  }

  /** Recording entry j (when its id is a key) extends the record to j + 1 entries. */
  lemma RecordEntry(usage: map<string, Usage>, base: map<string, Usage>, code: string, tbs: seq<Textbook>, j: nat)
    requires j < |tbs| && RecordedUpTo(usage, base, code, tbs, j)
    ensures var id := tbs[j].resourceId;
      RecordedUpTo(if id in usage then usage[id := Plus(usage[id], EntryUsage(code, tbs[j], id))] else usage,
                   base, code, tbs, j + 1)
  {
    forall k | k in usage {
      EntriesUsageStep(code, tbs, j, k);
    }
  }

  /** One course's textbook entries added to the index; ids outside it are skipped. */
  method AddCourseUsage(usage0: map<string, Usage>, c: Course) returns (usage: map<string, Usage>)
    ensures usage.Keys == usage0.Keys
    ensures forall k :: k in usage ==> usage[k] == Plus(usage0[k], EntriesUsage(c.code, c.textbooks, k))
  {
    usage := usage0;
    var j := 0;
    assert c.textbooks[..0] == [];
    while j < |c.textbooks|
      invariant 0 <= j <= |c.textbooks|
      invariant RecordedUpTo(usage, usage0, c.code, c.textbooks, j)
    {
      var tb := c.textbooks[j];
      RecordEntry(usage, usage0, c.code, c.textbooks, j);
      if tb.resourceId in usage {
        var u := usage[tb.resourceId];
        if tb.kind == TextbookType {
          assert u.(textbooks := u.textbooks + [c.code]) == Plus(u, EntryUsage(c.code, tb, tb.resourceId));
          usage := usage[tb.resourceId := u.(textbooks := u.textbooks + [c.code])];
        } else {
          assert u.(references := u.references + [c.code]) == Plus(u, EntryUsage(c.code, tb, tb.resourceId));
          usage := usage[tb.resourceId := u.(references := u.references + [c.code])];
        }
      }
      j := j + 1;
    }
    assert c.textbooks[..j] == c.textbooks;
  }

  /** `resourceUsage`: one entry per library id, filled by a pass over every course's
      textbook entries; entries naming ids outside the library are skipped. */
  method ResourceUsage(library: seq<LibraryResource>, courses: seq<Course>) returns (usage: map<string, Usage>)
    ensures usage.Keys == LibraryIds(library)
    ensures forall k :: k in usage ==> usage[k] == UsageOf(courses, k)
  {
    usage := EmptyUsage(library);
    var i := 0;
    while i < |courses|
      invariant 0 <= i <= |courses|
      invariant usage.Keys == LibraryIds(library)
      invariant forall k :: k in usage ==> usage[k] == UsageOf(courses[..i], k)
    {
      forall k | k in usage {
        UsageOfStep(courses, i, k);
      }
      usage := AddCourseUsage(usage, courses[i]);
      i := i + 1;
    }
    assert courses[..i] == courses;
  }

  /** A course's entries record its code under `textbooks` exactly when one of them lists
      the resource as a textbook, and under `references` exactly when one lists it as a
      reference. */
  lemma {:induction false} EntriesUsageMembership(code: string, tbs: seq<Textbook>, resId: string, x: string)
    ensures x in EntriesUsage(code, tbs, resId).textbooks <==>
            x == code && exists j :: 0 <= j < |tbs| && tbs[j].resourceId == resId && tbs[j].kind == TextbookType
    ensures x in EntriesUsage(code, tbs, resId).references <==>
            x == code && exists j :: 0 <= j < |tbs| && tbs[j].resourceId == resId && tbs[j].kind == ReferenceType
  {
    if tbs != [] {
      var init := tbs[..|tbs| - 1];
      EntriesUsageMembership(code, init, resId, x);
      assert forall j :: 0 <= j < |init| ==> init[j] == tbs[j];
    }
  }

  /** The usage index lists a course code under `textbooks` (`references`) exactly when a
      course with that code lists the resource as a textbook (reference). */
  lemma {:induction false} UsageOfMembership(cs: seq<Course>, resId: string, x: string)
    ensures x in UsageOf(cs, resId).textbooks <==>
            exists i :: 0 <= i < |cs| && cs[i].code == x && ListsAs(cs[i], resId, TextbookType)
    ensures x in UsageOf(cs, resId).references <==>
            exists i :: 0 <= i < |cs| && cs[i].code == x && ListsAs(cs[i], resId, ReferenceType)
  {
    if cs != [] {
      var init, last := cs[..|cs| - 1], cs[|cs| - 1];
      UsageOfMembership(init, resId, x);
      EntriesUsageMembership(last.code, last.textbooks, resId, x);
      assert forall i :: 0 <= i < |init| ==> init[i] == cs[i];
    }
  }

  // ---------------------------------------------------------------------------------------
  // Search filter

  /** The type drop-down: all resources, or one type. */
  datatype TypeFilter = AllTypes | OnlyType(kind: ResourceType)

  /** The search text matches title, author and publisher run together, ignoring case,
      and the type matches the drop-down. */
  predicate Shown(item: LibraryResource, query: string, filter: TypeFilter)
  {
    && Includes(Lower(item.title + item.author + item.publisher), Lower(query))
    && (filter.AllTypes? || item.kind == filter.kind)
  }

  /** `filteredLibrary`: the shown items, in library order. */
  function FilteredLibrary(library: seq<LibraryResource>, query: string, filter: TypeFilter): (r: seq<LibraryResource>)
    ensures |r| <= |library|
    ensures forall x :: x in r <==> x in library && Shown(x, query, filter)
  {
    Filter(library, (x: LibraryResource) => Shown(x, query, filter))
  }

  /** With an empty search and no type restriction, the whole library is shown. */
  lemma FilteredLibraryEmptyQuery(library: seq<LibraryResource>)
    ensures FilteredLibrary(library, "", AllTypes) == library
  {
    forall x | x in library ensures Shown(x, "", AllTypes) {
      assert OccursAt(Lower(x.title + x.author + x.publisher), Lower(""), 0);
    }
    FilterAll(library, (x: LibraryResource) => Shown(x, "", AllTypes));
  }

  // ---------------------------------------------------------------------------------------
  // Editing

  ghost predicate UniqueIds(library: seq<LibraryResource>)
  {
    forall i, j :: 0 <= i < j < |library| ==> library[i].id != library[j].id
  }

  /** The blank resource `handleAdd` creates; `year` is the current year. */
  function NewResource(id: string, year: string): LibraryResource
  {
    LibraryResource(id, "", "", "", year, TextbookType, false, true, Some(""))
  }

  /** `handleAdd`: a blank textbook with the fresh id `newId` in front of the library. */
  function HandleAdd(st: AppState, newId: string, year: string): (r: AppState)
    ensures |r.library| == |st.library| + 1
    ensures r.library[0].id == newId && r.library[0].kind == TextbookType && r.library[0].title == ""
    ensures r.library[1..] == st.library
    ensures r == st.(library := r.library)
  {
    st.(library := [NewResource(newId, year)] + st.library)
  }

  /** Adding keeps library ids unique. */
  lemma HandleAddKeepsIdsUnique(st: AppState, newId: string, year: string)
    requires newId !in LibraryIds(st.library) && UniqueIds(st.library)
    ensures UniqueIds(HandleAdd(st, newId, year).library)
  {
    var lib := HandleAdd(st, newId, year).library;
    forall i, j | 0 <= i < j < |lib| ensures lib[i].id != lib[j].id {
      if i == 0 {
        assert lib[j] == st.library[j - 1];
        assert st.library[j - 1] in st.library;
      }
    }
  }

  /** `handleSave`: with an edited id and a non-empty title, the resource with that id is
      replaced by the form; otherwise nothing changes. */
  function HandleSave(st: AppState, editingId: Option<string>, form: LibraryResource): (r: AppState)
    ensures editingId.None? || editingId.value == "" || form.title == "" ==> r == st
    ensures r == st.(library := r.library) && |r.library| == |st.library|
    ensures editingId.Some? && editingId.value != "" && form.title != "" ==>
              forall i :: 0 <= i < |st.library| ==>
                r.library[i] == if st.library[i].id == editingId.value then form else st.library[i]
  {
    if editingId.Some? && editingId.value != "" && form.title != "" then
      st.(library := seq(|st.library|, i requires 0 <= i < |st.library| =>
                           if st.library[i].id == editingId.value then form else st.library[i]))
    else st
  }

  /** A form that keeps the edited id keeps every library id in place; saving it twice is
      saving it once. */
  lemma HandleSaveKeepsIds(st: AppState, editingId: Option<string>, form: LibraryResource)
    requires editingId.Some? ==> form.id == editingId.value
    ensures var r := HandleSave(st, editingId, form);
      forall i :: 0 <= i < |st.library| ==> r.library[i].id == st.library[i].id
    ensures UniqueIds(st.library) ==> UniqueIds(HandleSave(st, editingId, form).library)
    ensures HandleSave(HandleSave(st, editingId, form), editingId, form) == HandleSave(st, editingId, form)
  {
  }

  /** A course without its entries for resource `id`. */
  function RemoveCitations(c: Course, id: string): (r: Course)
    ensures r == c.(textbooks := r.textbooks)
    ensures forall tb :: tb in r.textbooks <==> tb in c.textbooks && tb.resourceId != id
  {
    c.(textbooks := Filter(c.textbooks, (tb: Textbook) => tb.resourceId != id))
  }

  /** `handleDelete`: the resource leaves the library and every course's textbook list. */
  function HandleDelete(st: AppState, id: string): (r: AppState)
    ensures r == st.(library := r.library, courses := r.courses)
    ensures forall x :: x in r.library <==> x in st.library && x.id != id
    ensures |r.courses| == |st.courses|
    ensures forall i :: 0 <= i < |st.courses| ==> r.courses[i] == RemoveCitations(st.courses[i], id)
  {
    st.(library := Filter(st.library, (l: LibraryResource) => l.id != id),
        courses := seq(|st.courses|, i requires 0 <= i < |st.courses| => RemoveCitations(st.courses[i], id)))
  }

  /** After deleting, nothing refers to the resource: it is not in the library, no course
      cites it, and its usage record is empty. */
  lemma HandleDeleteLeavesNoReference(st: AppState, id: string)
    ensures var r := HandleDelete(st, id);
      id !in LibraryIds(r.library) && UsageCount(r.courses, id) == 0
  {
    var r := HandleDelete(st, id);
    forall i | 0 <= i < |r.courses| ensures !Cites(r.courses[i], id) {
      var tbs := r.courses[i].textbooks;
      forall k | 0 <= k < |tbs| ensures tbs[k].resourceId != id {
        assert tbs[k] in tbs;
      }
    }
  }

  /** Filtering out one resource's entries leaves every other resource's record as it was. */
  lemma {:induction false} EntriesUsageRemove(code: string, tbs: seq<Textbook>, id: string, k: string)
    requires k != id
    ensures EntriesUsage(code, Filter(tbs, (tb: Textbook) => tb.resourceId != id), k) == EntriesUsage(code, tbs, k)
  {
    var p := (tb: Textbook) => tb.resourceId != id;
    if tbs != [] {
      var init, last := tbs[..|tbs| - 1], tbs[|tbs| - 1];
      assert tbs == init + [last];
      FilterSnoc(init, last, p);
      EntriesUsageRemove(code, init, id, k);
      var f := Filter(init, p);
      if p(last) {
        assert (f + [last])[..|f + [last]| - 1] == f;
      } else {
        assert f + [] == f;
        assert EntryUsage(code, last, k) == NoUsage;
        assert EntriesUsage(code, tbs, k) == Plus(EntriesUsage(code, init, k), NoUsage);
      }
    }
  }

  /** Deleting a resource leaves the usage record of every other resource unchanged. */
  lemma {:induction false} HandleDeleteKeepsOtherUsage(cs: seq<Course>, id: string, k: string)
    requires k != id
    ensures UsageOf(seq(|cs|, i requires 0 <= i < |cs| => RemoveCitations(cs[i], id)), k) == UsageOf(cs, k)
  {
    var rs := seq(|cs|, i requires 0 <= i < |cs| => RemoveCitations(cs[i], id));
    if cs != [] {
      var init := cs[..|cs| - 1];
      HandleDeleteKeepsOtherUsage(init, id, k);
      assert rs[..|rs| - 1] == seq(|init|, i requires 0 <= i < |init| => RemoveCitations(init[i], id));
      EntriesUsageRemove(cs[|cs| - 1].code, cs[|cs| - 1].textbooks, id, k);
    }
  }

  /** Deleting the same resource twice is deleting it once. */
  lemma HandleDeleteIdempotent(st: AppState, id: string)
    ensures HandleDelete(HandleDelete(st, id), id) == HandleDelete(st, id)
  {
    var r := HandleDelete(st, id);
    var p := (l: LibraryResource) => l.id != id;
    FilterAll(r.library, p);
    forall i | 0 <= i < |r.courses| ensures RemoveCitations(r.courses[i], id) == r.courses[i] {
      FilterAll(r.courses[i].textbooks, (tb: Textbook) => tb.resourceId != id);
    }
  }

  /** Deleting a resource just added, which no course cites, restores the document. */
  lemma HandleAddThenDelete(st: AppState, newId: string, year: string)
    requires newId !in LibraryIds(st.library)
    requires forall c :: c in st.courses ==> !Cites(c, newId)
    ensures HandleDelete(HandleAdd(st, newId, year), newId) == st
  {
    var a := HandleAdd(st, newId, year);
    var r := HandleDelete(a, newId);
    assert r.library == st.library by {
      var p := (l: LibraryResource) => l.id != newId;
      assert a.library == [NewResource(newId, year)] + st.library;
      assert Filter(a.library, p) == Filter(st.library, p);
      FilterAll(st.library, p);
    }
    forall i | 0 <= i < |st.courses| ensures r.courses[i] == st.courses[i] {
      var c := st.courses[i];
      assert c in st.courses;
      assert forall tb :: tb in c.textbooks ==> tb.resourceId != newId;
      FilterAll(c.textbooks, (tb: Textbook) => tb.resourceId != newId);
    }
  }
}
