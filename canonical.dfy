/**
 * The canonicalisation pass (`normalizeData`): faculty and course ids are regenerated from
 * names and codes, and every place that refers to a course or a faculty member by id is
 * rewritten through the old-id -> new-id maps; references that no longer resolve are
 * dropped. Sub-block member lists and prerequisite codes are left as they are.
 */
module Canonical {

  import opened Wrappers
  import opened Types
  import opened Text
  import opened Numbers
  import opened Seqs

  // ---------------------------------------------------------------------------------------
  // Generated ids and the `_` separator

  predicate NoUnderscore(s: string) { '_' !in s }

  /** Index of the first `_`, or `|s|`. */
  function FirstUnderscore(s: string): (k: nat)
    ensures k <= |s|
  {
    if s == [] then 0 else if s[0] == '_' then 0 else 1 + FirstUnderscore(s[1..])
  }

  lemma {:induction false} FirstUnderscoreAt(p: string, rest: string)
    requires NoUnderscore(p) && rest != [] && rest[0] == '_'
    ensures FirstUnderscore(p + rest) == |p|
    decreases |p|
  {
    if p == [] {
      assert p + rest == rest;
    } else {
      assert (p + rest)[0] == p[0];
      assert (p + rest)[1..] == p[1..] + rest;
      FirstUnderscoreAt(p[1..], rest);
    }
  }

  /** `p + "_" + d` determines `p` and `d` when `p` has no underscore. */
  lemma UnderscoreSplit(p1: string, d1: string, p2: string, d2: string)
    requires NoUnderscore(p1) && NoUnderscore(p2)
    requires p1 + "_" + d1 == p2 + "_" + d2
    ensures p1 == p2 && d1 == d2
  {
    var s := p1 + "_" + d1;
    FirstUnderscoreAt(p1, "_" + d1);
    FirstUnderscoreAt(p2, "_" + d2);
    assert p1 + "_" + d1 == p1 + ("_" + d1) && p2 + "_" + d2 == p2 + ("_" + d2);
    assert s[..|p1|] == p1 && (p2 + "_" + d2)[..|p2|] == p2;
    assert s[|p1| + 1..] == d1 && (p2 + "_" + d2)[|p2| + 1..] == d2;
  }

  lemma NatToStringInjective(a: nat, b: nat)
    requires NatToString(a) == NatToString(b)
    ensures a == b
  {
    IntToStringInjective(a, b);
  }

  /** `idMap.get(x) || x`. */
  function Resolve(m: map<string, string>, x: string): (r: string)
    ensures x in m && m[x] != "" ==> r == m[x]
    ensures !(x in m && m[x] != "") ==> r == x
  {
    if x in m && m[x] != "" then m[x] else x
  }

  // ---------------------------------------------------------------------------------------
  // Faculty ids

  predicate IsAsciiAlnum(c: char) { IsAsciiLower(c) || IsAsciiUpper(c) || IsDigit(c) }

  /** Name without diacritics, reduced to `[a-zA-Z0-9]`, lower-cased, first ten characters. */
  function FacultySlug(name: string): (r: string)
    ensures |r| <= 10
    ensures forall k :: 0 <= k < |r| ==> IsAsciiLower(r[k]) || IsDigit(r[k])
  {
    var t := Lower(Filter(StripDiacritics(name), IsAsciiAlnum));
    assert forall k :: 0 <= k < |t| ==> IsAsciiLower(t[k]) || IsDigit(t[k]) by {
      forall k | 0 <= k < |t| ensures IsAsciiLower(t[k]) || IsDigit(t[k]) {
        var u := Filter(StripDiacritics(name), IsAsciiAlnum);
        assert u[k] in u;
      }
    }
    if |t| <= 10 then t else t[..10]
  }

  /** `fac-<slug>_<i>` for the faculty member at index i. */
  function FacultyNewId(f: Faculty, lang: Language, i: nat): string
  {
    "fac-" + FacultySlug(f.name.Get(lang)) + "_" + NatToString(i)
  }

  /** Faculty ids generated at different indices differ, whatever the names. */
  lemma FacultyNewIdsDiffer(f: Faculty, g: Faculty, lang: Language, i: nat, j: nat)
    requires i != j
    ensures FacultyNewId(f, lang, i) != FacultyNewId(g, lang, j)
  {
    var p1, p2 := "fac-" + FacultySlug(f.name.Get(lang)), "fac-" + FacultySlug(g.name.Get(lang));
    assert NoUnderscore(p1) && NoUnderscore(p2) by {
      assert forall c :: c in FacultySlug(f.name.Get(lang)) ==> c != '_';
      assert forall c :: c in FacultySlug(g.name.Get(lang)) ==> c != '_';
    }
    if FacultyNewId(f, lang, i) == FacultyNewId(g, lang, j) {
      UnderscoreSplit(p1, NatToString(i), p2, NatToString(j));
      NatToStringInjective(i, j);
    }
  }

  /** `prev.faculties.map((f, i) => ({ ...f, id: newId }))`. */
  function NewFaculties(fs: seq<Faculty>, lang: Language): (r: seq<Faculty>)
    ensures |r| == |fs|
    ensures forall i :: 0 <= i < |fs| ==> r[i] == fs[i].(id := FacultyNewId(fs[i], lang, i))
  {
    seq(|fs|, i requires 0 <= i < |fs| => fs[i].(id := FacultyNewId(fs[i], lang, i)))
  }

  /** All regenerated faculty ids are pairwise distinct. */
  lemma NewFacultyIdsDistinct(fs: seq<Faculty>, lang: Language)
    ensures forall i, j :: 0 <= i < j < |fs| ==> NewFaculties(fs, lang)[i].id != NewFaculties(fs, lang)[j].id
  {
    forall i, j | 0 <= i < j < |fs|
      ensures NewFaculties(fs, lang)[i].id != NewFaculties(fs, lang)[j].id
    {
      FacultyNewIdsDiffer(fs[i], fs[j], lang, i, j);
    }
  }

  /** For the first n keys, the index of the LAST occurrence of each key: a `Map.set` per
      element, later elements overwriting earlier ones with the same key. */
  function LastIndex(keys: seq<string>, n: nat): (m: map<string, nat>)
    requires n <= |keys|
    ensures forall k :: k in m ==> m[k] < n && keys[m[k]] == k
    ensures forall j :: 0 <= j < n ==> keys[j] in m
  {
    if n == 0 then map[] else LastIndex(keys, n - 1)[keys[n - 1] := n - 1]
  }

  function FacultyKeys(fs: seq<Faculty>): (r: seq<string>)
    ensures |r| == |fs| && forall i :: 0 <= i < |fs| ==> r[i] == fs[i].id
  {
    seq(|fs|, i requires 0 <= i < |fs| => fs[i].id)
  }

  /** `idMap.faculty`: each old id maps to the new id of the last member carrying it. */
  function FacultyIdMap(fs: seq<Faculty>, lang: Language): (m: map<string, string>)
    ensures forall f :: f in fs ==> f.id in m
  {
    var last := LastIndex(FacultyKeys(fs), |fs|);
    assert forall f :: f in fs ==> f.id in last by {
      forall f | f in fs ensures f.id in last {
        var i :| 0 <= i < |fs| && fs[i] == f;
      }
    }
    map k | k in last :: FacultyNewId(fs[last[k]], lang, last[k])
  }

  /** Every key maps to the new id of a member carrying it; distinct keys to distinct ids. */
  lemma FacultyIdMapFacts(fs: seq<Faculty>, lang: Language, k1: string, k2: string)
    requires k1 in FacultyIdMap(fs, lang) && k2 in FacultyIdMap(fs, lang)
    ensures FacultyIdMap(fs, lang)[k1] in FacultyIds(NewFaculties(fs, lang))
    ensures k1 != k2 ==> FacultyIdMap(fs, lang)[k1] != FacultyIdMap(fs, lang)[k2]
  {
    var last := LastIndex(FacultyKeys(fs), |fs|);
    var j1, j2 := last[k1], last[k2];
    assert NewFaculties(fs, lang)[j1] in NewFaculties(fs, lang);
    if k1 != k2 {
      FacultyNewIdsDiffer(fs[j1], fs[j2], lang, j1, j2);
    }
  }

  /** Set of the regenerated faculty ids. */
  function NewFacultyIds(fs: seq<Faculty>, lang: Language): set<string>
  {
    FacultyIds(NewFaculties(fs, lang))
  }

  /** The rebuilt `instructorDetails`: each old key that maps to a regenerated faculty id
      is moved to that id with its value. */
  function RemapInstructorDetails(details: map<string, InstructorDetail>, fs: seq<Faculty>, lang: Language)
    : (r: map<string, InstructorDetail>)
    ensures forall k :: k in r ==> k in NewFacultyIds(fs, lang)
    ensures forall k :: k in details && k in FacultyIdMap(fs, lang) ==>
      FacultyIdMap(fs, lang)[k] in r && r[FacultyIdMap(fs, lang)[k]] == details[k]
    ensures forall k :: k in r ==>
              exists j :: j in details && j in FacultyIdMap(fs, lang) &&
                           FacultyIdMap(fs, lang)[j] == k && r[k] == details[j]
  {
    var m := FacultyIdMap(fs, lang);
    var valid := NewFacultyIds(fs, lang);
    forall k1, k2 | k1 in m && k2 in m ensures m[k1] in valid && (k1 != k2 ==> m[k1] != m[k2]) {
      FacultyIdMapFacts(fs, lang, k1, k2);
    }
    assert forall k :: k in m ==> m[k] != "" by {
      forall k | k in m ensures m[k] != "" {
        var last := LastIndex(FacultyKeys(fs), |fs|);
        assert m[k] == FacultyNewId(fs[last[k]], lang, last[k]);
      }
    }
    map k | k in details && k in m && m[k] != "" && m[k] in valid :: m[k] := details[k]
  }

  // ---------------------------------------------------------------------------------------
  // Course ids

  predicate IsSlugChar(c: char) { IsAsciiUpper(c) || IsDigit(c) || c == '-' }

  /** `.replace(/\s+/g, '-')`: every maximal run of whitespace becomes one `-`. */
  function CollapseSpaces(s: string, inRun: bool): (r: string)
    ensures forall k :: 0 <= k < |r| ==> !IsSpace(r[k])
  {
    if s == [] then []
    else if IsSpace(s[0]) then (if inRun then [] else "-") + CollapseSpaces(s[1..], true)
    else [s[0]] + CollapseSpaces(s[1..], false)
  }

  /** `code.trim().toUpperCase().replace(/\s+/g, '-').replace(/[^A-Z0-9-]/g, '')`. */
  function CodeSlug(code: string): (r: string)
    ensures forall c :: c in r ==> IsSlugChar(c)
  {
    Filter(CollapseSpaces(Upper(Trim(code)), false), IsSlugChar)
  }

  /** Text without whitespace passes through the whitespace collapse unchanged. */
  lemma {:induction false} CollapseNoSpace(s: string, inRun: bool)
    requires forall k :: 0 <= k < |s| ==> !IsSpace(s[k])
    ensures CollapseSpaces(s, inRun) == s
  {
    if s != [] {
      CollapseNoSpace(s[1..], false);
    }
  }

  /** A code made of `[A-Z0-9-]` is its own slug. */
  lemma CodeSlugOfSlug(code: string)
    requires forall k :: 0 <= k < |code| ==> IsSlugChar(code[k])
    ensures CodeSlug(code) == code
  {
    TrimTrimmed(code);
    UpperKeeps(code);
    CollapseNoSpace(code, false);
    FilterAll(code, IsSlugChar);
  }

  /** Slugging a slug again changes nothing. */
  lemma CodeSlugTwice(code: string)
    ensures CodeSlug(CodeSlug(code)) == CodeSlug(code)
  {
    var s := CodeSlug(code);
    assert forall k :: 0 <= k < |s| ==> IsSlugChar(s[k]) by {
      forall k | 0 <= k < |s| ensures IsSlugChar(s[k]) {
        assert s[k] in s;
      }
    }
    CodeSlugOfSlug(s);
  }

  /** The slug, or `CID-<i>` when it is shorter than two characters. */
  function BaseId(code: string, i: nat): (r: string)
    ensures NoUnderscore(r)
  {
    var s := CodeSlug(code);
    if |s| < 2 then
      assert forall c :: c in NatToString(i) ==> IsDigit(c);
      "CID-" + NatToString(i)
    else s
  }

  /** `<base>_<i>`: the id a colliding base id is replaced with. */
  function Suffixed(b: string, i: nat): string
  {
    b + "_" + NatToString(i)
  }

  lemma SuffixedFacts(b1: string, i: nat, b2: string, j: nat)
    requires NoUnderscore(b1) && NoUnderscore(b2)
    ensures '_' in Suffixed(b1, i)
    ensures Suffixed(b1, i) == Suffixed(b2, j) ==> i == j
  {
    assert Suffixed(b1, i)[|b1|] == '_';
    if Suffixed(b1, i) == Suffixed(b2, j) {
      UnderscoreSplit(b1, NatToString(i), b2, NatToString(j));
      NatToStringInjective(i, j);
    }
  }

  /** The id the i-th course gets, given the ids currently held in the map. */
  function CourseNewId(base: string, i: nat, taken: set<string>): (r: string)
  {
    if base in taken then Suffixed(base, i) else base
  }

  /** The new course ids, in course order, and `idMap.courses`. */
  datatype Assignment = Assignment(ids: seq<string>, idMap: map<string, string>)

  /** The assignment after the first n courses, given their old ids `keys` and base ids
      `bases`: the collision test consults the VALUES of the map, so an id assigned to a
      course whose old id is reused later is forgotten. */
  function AssignUpTo(keys: seq<string>, bases: seq<string>, n: nat): (a: Assignment)
    requires |keys| == |bases| && n <= |keys|
    ensures |a.ids| == n
    ensures forall k :: 0 <= k < n ==> keys[k] in a.idMap
    ensures forall v :: v in a.idMap.Values ==> v in a.ids
  {
    if n == 0 then Assignment([], map[])
    else
      var a := AssignUpTo(keys, bases, n - 1);
      var id := CourseNewId(bases[n - 1], n - 1, a.idMap.Values);
      Assignment(a.ids + [id], a.idMap[keys[n - 1] := id])
  }

  function CourseKeys(cs: seq<Course>): (r: seq<string>)
    ensures |r| == |cs| && forall i :: 0 <= i < |cs| ==> r[i] == cs[i].id
  {
    seq(|cs|, i requires 0 <= i < |cs| => cs[i].id)
  }

  function CourseBases(cs: seq<Course>): (r: seq<string>)
    ensures |r| == |cs| && forall i :: 0 <= i < |cs| ==> r[i] == BaseId(cs[i].code, i)
  {
    seq(|cs|, i requires 0 <= i < |cs| => BaseId(cs[i].code, i))
  }

  /** The assignment for a whole course list. */
  function AssignAll(cs: seq<Course>): (a: Assignment)
    ensures |a.ids| == |cs|
  {
    AssignUpTo(CourseKeys(cs), CourseBases(cs), |cs|)
  }

  /** The `prev.courses.map((c, i) => ...)` loop that threads `idMap.courses`. */
  method AssignCourseIds(cs: seq<Course>) returns (ids: seq<string>, idMap: map<string, string>)
    ensures Assignment(ids, idMap) == AssignAll(cs)
  {
    ids := [];
    idMap := map[];
    var keys, bases := CourseKeys(cs), CourseBases(cs);
    var i := 0;
    while i < |cs|
      invariant 0 <= i <= |cs|
      invariant Assignment(ids, idMap) == AssignUpTo(keys, bases, i)
    {
      var baseId := CodeSlug(cs[i].code);
      if |baseId| < 2 {
        baseId := "CID-" + NatToString(i);
      }
      assert baseId == bases[i];
      if baseId in idMap.Values {
        baseId := Suffixed(baseId, i);
      }
      idMap := idMap[cs[i].id := baseId];
      ids := ids + [baseId];
      i := i + 1;
    }
  }

  ghost predicate Distinct(keys: seq<string>)
  {
    forall i, j :: 0 <= i < j < |keys| ==> keys[i] != keys[j]
  }

  /** With distinct keys nothing is overwritten: each key maps to its own new id. */
  lemma {:induction false} AssignMapsEach(keys: seq<string>, bases: seq<string>, n: nat)
    requires |keys| == |bases| && n <= |keys| && Distinct(keys)
    ensures forall k :: 0 <= k < n ==> AssignUpTo(keys, bases, n).idMap[keys[k]] == AssignUpTo(keys, bases, n).ids[k]
  {
    if n > 0 {
      AssignMapsEach(keys, bases, n - 1);
      var a := AssignUpTo(keys, bases, n - 1);
      assert forall k :: 0 <= k < n - 1 ==> AssignUpTo(keys, bases, n).ids[k] == a.ids[k];
    }
  }

  /** Every assigned id is its base id, possibly suffixed with its index. */
  lemma {:induction false} AssignShape(keys: seq<string>, bases: seq<string>, n: nat)
    requires |keys| == |bases| && n <= |keys|
    ensures forall k :: 0 <= k < n ==>
      AssignUpTo(keys, bases, n).ids[k] == bases[k] || AssignUpTo(keys, bases, n).ids[k] == Suffixed(bases[k], k)
  {
    if n > 0 {
      AssignShape(keys, bases, n - 1);
      var a := AssignUpTo(keys, bases, n - 1);
      assert forall k :: 0 <= k < n - 1 ==> AssignUpTo(keys, bases, n).ids[k] == a.ids[k];
    }
  }

  /** The id given at index n is not among the ids given before it. */
  lemma NewIdFresh(keys: seq<string>, bases: seq<string>, n: nat)
    requires |keys| == |bases| && n < |keys| && Distinct(keys)
    requires forall k :: 0 <= k < |bases| ==> NoUnderscore(bases[k])
    ensures CourseNewId(bases[n], n, AssignUpTo(keys, bases, n).idMap.Values) !in AssignUpTo(keys, bases, n).ids
  {
    var a := AssignUpTo(keys, bases, n);
    var x := CourseNewId(bases[n], n, a.idMap.Values);
    AssignMapsEach(keys, bases, n);
    AssignShape(keys, bases, n);
    forall k | 0 <= k < n ensures a.ids[k] != x {
      assert a.ids[k] in a.idMap.Values by {
        assert a.idMap[keys[k]] == a.ids[k];
      }
      SuffixedFacts(bases[n], n, bases[k], k);
      SuffixedFacts(bases[k], k, bases[n], n);
    }
  }

  /** With distinct keys, the assigned ids are pairwise distinct. */
  lemma {:induction false} AssignDistinct(keys: seq<string>, bases: seq<string>, n: nat)
    requires |keys| == |bases| && n <= |keys| && Distinct(keys)
    requires forall k :: 0 <= k < |bases| ==> NoUnderscore(bases[k])
    ensures Distinct(AssignUpTo(keys, bases, n).ids)
  {
    if n > 0 {
      AssignDistinct(keys, bases, n - 1);
      NewIdFresh(keys, bases, n - 1);
      var a := AssignUpTo(keys, bases, n - 1);
      var ids := AssignUpTo(keys, bases, n).ids;
      forall i, j | 0 <= i < j < n ensures ids[i] != ids[j] {
        assert ids[i] == a.ids[i];
        if j < n - 1 {
          assert ids[j] == a.ids[j];
        } else {
          assert a.ids[i] in a.ids;
        }
      }
    }
  }

  // ---------------------------------------------------------------------------------------
  // Rewriting references

  /** One course id rewritten: `Some` of its new id when that names a new course. */
  function ResolveStep(m: map<string, string>, valid: set<string>): string -> Option<string>
  {
    x => if Resolve(m, x) in valid then Some(Resolve(m, x)) else None
  }

  /** `list.map(id => idMap.get(id) || id).filter(resolves)`, used for the structure lists
      (with the course map) and for a course's instructors (with the faculty map): order is
      kept and duplicates are not removed. */
  function RemapIdList(list: seq<string>, m: map<string, string>, valid: set<string>): (r: seq<string>)
    ensures |r| <= |list|
    ensures forall x :: x in r ==> x in valid
    ensures forall y :: y in r ==> exists x :: x in list && y == Resolve(m, x)
    ensures forall x :: x in list && Resolve(m, x) in valid ==> Resolve(m, x) in r
  {
    var r := MapFilter(list, ResolveStep(m, valid));
    assert forall x :: x in list && Resolve(m, x) in valid ==> ResolveStep(m, valid)(x) == Some(Resolve(m, x));
    r
  }

  /** The list is rewritten entry by entry, in order. */
  lemma RemapIdListAppend(a: seq<string>, b: seq<string>, x: string, m: map<string, string>, valid: set<string>)
    ensures RemapIdList(a + b, m, valid) == RemapIdList(a, m, valid) + RemapIdList(b, m, valid)
    ensures RemapIdList([x], m, valid) == if Resolve(m, x) in valid then [Resolve(m, x)] else []
  {
    MapFilterAppend(a, b, ResolveStep(m, valid));
  }

  /** The four structure lists, each rewritten. */
  function RemapStructure(ps: ProgramStructure, m: map<string, string>, valid: set<string>): (r: ProgramStructure)
    ensures forall b: Block :: r.Get(b) == RemapIdList(ps.Get(b), m, valid)
  {
    var r := ProgramStructure(RemapIdList(ps.gen, m, valid), RemapIdList(ps.fund, m, valid),
                              RemapIdList(ps.spec, m, valid), RemapIdList(ps.grad, m, valid));
    r
  }

  /** One SO-matrix entry with its course id rewritten, when that names a new course. */
  function SoStep(m: map<string, string>, valid: set<string>): CourseSo -> Option<CourseSo>
  {
    (e: CourseSo) => if Resolve(m, e.courseId) in valid then Some(e.(courseId := Resolve(m, e.courseId))) else None
  }

  /** `courseSoMap` rewritten: course ids resolved, unresolved entries dropped. */
  function RemapCourseSo(xs: seq<CourseSo>, m: map<string, string>, valid: set<string>): (r: seq<CourseSo>)
    ensures |r| <= |xs|
    ensures forall e :: e in r ==> e.courseId in valid
    ensures forall e :: e in r ==> exists x :: x in xs && e == x.(courseId := Resolve(m, x.courseId))
    ensures forall x :: x in xs && Resolve(m, x.courseId) in valid ==> x.(courseId := Resolve(m, x.courseId)) in r
  {
    var r := MapFilter(xs, SoStep(m, valid));
    assert forall x :: x in xs && Resolve(m, x.courseId) in valid ==>
      SoStep(m, valid)(x) == Some(x.(courseId := Resolve(m, x.courseId)));
    r
  }

  /** The SO matrix is rewritten entry by entry, in order. */
  lemma RemapCourseSoAppend(a: seq<CourseSo>, b: seq<CourseSo>, x: CourseSo, m: map<string, string>, valid: set<string>)
    ensures RemapCourseSo(a + b, m, valid) == RemapCourseSo(a, m, valid) + RemapCourseSo(b, m, valid)
    ensures RemapCourseSo([x], m, valid) ==
      if Resolve(m, x.courseId) in valid then [x.(courseId := Resolve(m, x.courseId))] else []
  {
    MapFilterAppend(a, b, SoStep(m, valid));
  }

  function PiStep(m: map<string, string>, valid: set<string>): CoursePi -> Option<CoursePi>
  {
    (e: CoursePi) => if Resolve(m, e.courseId) in valid then Some(e.(courseId := Resolve(m, e.courseId))) else None
  }

  /** `coursePiMap` rewritten like `courseSoMap`. */
  function RemapCoursePi(xs: seq<CoursePi>, m: map<string, string>, valid: set<string>): (r: seq<CoursePi>)
    ensures |r| <= |xs|
    ensures forall e :: e in r ==> e.courseId in valid
    ensures forall e :: e in r ==> exists x :: x in xs && e == x.(courseId := Resolve(m, x.courseId))
    ensures forall x :: x in xs && Resolve(m, x.courseId) in valid ==> x.(courseId := Resolve(m, x.courseId)) in r
  {
    var r := MapFilter(xs, PiStep(m, valid));
    assert forall x :: x in xs && Resolve(m, x.courseId) in valid ==>
      PiStep(m, valid)(x) == Some(x.(courseId := Resolve(m, x.courseId)));
    r
  }

  lemma RemapCoursePiAppend(a: seq<CoursePi>, b: seq<CoursePi>, x: CoursePi, m: map<string, string>, valid: set<string>)
    ensures RemapCoursePi(a + b, m, valid) == RemapCoursePi(a, m, valid) + RemapCoursePi(b, m, valid)
    ensures RemapCoursePi([x], m, valid) ==
      if Resolve(m, x.courseId) in valid then [x.(courseId := Resolve(m, x.courseId))] else []
  {
    MapFilterAppend(a, b, PiStep(m, valid));
  }

  function PeoStep(m: map<string, string>, valid: set<string>): CoursePeo -> Option<CoursePeo>
  {
    (e: CoursePeo) => if Resolve(m, e.courseId) in valid then Some(e.(courseId := Resolve(m, e.courseId))) else None
  }

  /** `coursePeoMap` rewritten like `courseSoMap`. */
  function RemapCoursePeo(xs: seq<CoursePeo>, m: map<string, string>, valid: set<string>): (r: seq<CoursePeo>)
    ensures |r| <= |xs|
    ensures forall e :: e in r ==> e.courseId in valid
    ensures forall e :: e in r ==> exists x :: x in xs && e == x.(courseId := Resolve(m, x.courseId))
    ensures forall x :: x in xs && Resolve(m, x.courseId) in valid ==> x.(courseId := Resolve(m, x.courseId)) in r
  {
    var r := MapFilter(xs, PeoStep(m, valid));
    assert forall x :: x in xs && Resolve(m, x.courseId) in valid ==>
      PeoStep(m, valid)(x) == Some(x.(courseId := Resolve(m, x.courseId)));
    r
  }

  lemma RemapCoursePeoAppend(a: seq<CoursePeo>, b: seq<CoursePeo>, x: CoursePeo, m: map<string, string>, valid: set<string>)
    ensures RemapCoursePeo(a + b, m, valid) == RemapCoursePeo(a, m, valid) + RemapCoursePeo(b, m, valid)
    ensures RemapCoursePeo([x], m, valid) ==
      if Resolve(m, x.courseId) in valid then [x.(courseId := Resolve(m, x.courseId))] else []
  {
    MapFilterAppend(a, b, PeoStep(m, valid));
  }

  /** `const [cid, oid] = str.split('|')`: `oid` is the second piece, or the text
      `undefined` when the key has no `|`. */
  function KeyCourse(key: string): string { SplitOn(key, '|')[0] }

  function KeyObjective(key: string): string
  {
    var parts := SplitOn(key, '|');
    if |parts| >= 2 then parts[1] else "undefined"
  }

  /** One `course|objective` key rewritten, or `None` when its course does not resolve. */
  function RemapKey(key: string, m: map<string, string>, valid: set<string>): (r: Option<string>)
    ensures r.Some? ==> r.value == Resolve(m, KeyCourse(key)) + "|" + KeyObjective(key)
    ensures r.Some? <==> Resolve(m, KeyCourse(key)) in valid
  {
    var newCid := Resolve(m, KeyCourse(key));
    if newCid in valid then Some(newCid + "|" + KeyObjective(key)) else None
  }

  function KeyStep(m: map<string, string>, valid: set<string>): string -> Option<string>
  {
    k => RemapKey(k, m, valid)
  }

  /** The `courseObjectiveMap` keys rewritten, unresolved ones dropped. */
  function RemapKeys(keys: seq<string>, m: map<string, string>, valid: set<string>): (r: seq<string>)
    ensures |r| <= |keys|
    ensures forall x :: x in r ==> exists k :: k in keys && RemapKey(k, m, valid) == Some(x)
    ensures forall k :: k in keys && RemapKey(k, m, valid).Some? ==> RemapKey(k, m, valid).value in r
  {
    var r := MapFilter(keys, KeyStep(m, valid));
    assert forall k :: k in keys ==> KeyStep(m, valid)(k) == RemapKey(k, m, valid);
    r
  }

  /** The keys are rewritten one by one, in order. */
  lemma RemapKeysAppend(a: seq<string>, b: seq<string>, key: string, m: map<string, string>, valid: set<string>)
    ensures RemapKeys(a + b, m, valid) == RemapKeys(a, m, valid) + RemapKeys(b, m, valid)
    ensures RemapKeys([key], m, valid) == if RemapKey(key, m, valid).Some? then [RemapKey(key, m, valid).value] else []
  {
    MapFilterAppend(a, b, KeyStep(m, valid));
  }

  /** One course with its new id and its instructor references rewritten: every remaining
      instructor id and detail key names a regenerated faculty id. */
  function NewCourse(c: Course, id: string, fs: seq<Faculty>, lang: Language): (r: Course)
    ensures r == c.(id := id, instructorIds := r.instructorIds, instructorDetails := r.instructorDetails)
    ensures forall x :: x in r.instructorIds ==> x in NewFacultyIds(fs, lang)
    ensures forall x :: x in r.instructorDetails ==> x in NewFacultyIds(fs, lang)
    ensures r.instructorIds == RemapIdList(c.instructorIds, FacultyIdMap(fs, lang), NewFacultyIds(fs, lang))
    ensures r.instructorDetails == RemapInstructorDetails(c.instructorDetails, fs, lang)
  {
    c.(id := id,
       instructorIds := RemapIdList(c.instructorIds, FacultyIdMap(fs, lang), NewFacultyIds(fs, lang)),
       instructorDetails := RemapInstructorDetails(c.instructorDetails, fs, lang))
  }

  /** The new course list. */
  function NewCourses(cs: seq<Course>, ids: seq<string>, fs: seq<Faculty>, lang: Language): (r: seq<Course>)
    requires |ids| == |cs|
    ensures |r| == |cs|
    ensures forall i :: 0 <= i < |cs| ==> r[i] == NewCourse(cs[i], ids[i], fs, lang)
  {
    seq(|cs|, i requires 0 <= i < |cs| => NewCourse(cs[i], ids[i], fs, lang))
  }

  /** Everything `normalizeData` recomputes. */
  datatype Parts = Parts(courses: seq<Course>, faculties: seq<Faculty>, courseSoMap: seq<CourseSo>,
                         coursePiMap: seq<CoursePi>, coursePeoMap: seq<CoursePeo>,
                         structure: ProgramStructure, courseObjectiveMap: seq<string>)

  /** The recomputed parts: `valid` is the set of new course ids, `a` the id assignment. */
  function Recompute(st: AppState, a: Assignment, valid: set<string>): (p: Parts)
    requires |a.ids| == |st.courses|
    ensures |p.courses| == |st.courses| && |p.faculties| == |st.faculties|
    ensures forall i :: 0 <= i < |st.courses| ==> p.courses[i] == NewCourse(st.courses[i], a.ids[i], st.faculties, st.language)
    ensures forall i :: 0 <= i < |st.faculties| ==>
      p.faculties[i] == st.faculties[i].(id := FacultyNewId(st.faculties[i], st.language, i))
  {
    var moet := st.Moet();
    var ps := moet.programStructure;
    Parts(NewCourses(st.courses, a.ids, st.faculties, st.language),
          NewFaculties(st.faculties, st.language),
          RemapCourseSo(st.courseSoMap, a.idMap, valid),
          RemapCoursePi(st.coursePiMap, a.idMap, valid),
          RemapCoursePeo(st.coursePeoMap, a.idMap, valid),
          RemapStructure(ps, a.idMap, valid),
          RemapKeys(moet.courseObjectiveMap, a.idMap, valid))
  }

  /** The parts installed in the document. */
  function Install(st: AppState, p: Parts): (r: AppState)
    ensures r.courses == p.courses && r.faculties == p.faculties
    ensures r.courseSoMap == p.courseSoMap && r.coursePiMap == p.coursePiMap && r.coursePeoMap == p.coursePeoMap
    ensures r.Moet().programStructure == p.structure && r.Moet().courseObjectiveMap == p.courseObjectiveMap
    ensures r.Moet().subBlocks == st.Moet().subBlocks
  {
    st.(courses := p.courses, faculties := p.faculties, courseSoMap := p.courseSoMap,
        coursePiMap := p.coursePiMap, coursePeoMap := p.coursePeoMap)
      .WithMoet(st.Moet().(programStructure := p.structure, courseObjectiveMap := p.courseObjectiveMap))
  }

  /** The new course ids. */
  function NewCourseIds(st: AppState): set<string>
  {
    CourseIds(NewCourses(st.courses, AssignAll(st.courses).ids, st.faculties, st.language))
  }

  /** `normalizeData`. */
  function NormalizeData(st: AppState): (r: AppState)
  {
    Install(st, Recompute(st, AssignAll(st.courses), NewCourseIds(st)))
  }

  /** Every course keeps everything but its id and instructor references (prerequisite
      codes included). */
  lemma NormalizeDataCourseRecords(st: AppState)
    ensures var r := NormalizeData(st);
      && |r.courses| == |st.courses|
      && forall i :: 0 <= i < |st.courses| ==>
           r.courses[i] == st.courses[i].(id := r.courses[i].id, instructorIds := r.courses[i].instructorIds,
                                          instructorDetails := r.courses[i].instructorDetails)
  {
  }

  /** Every faculty member keeps everything but its id. */
  lemma NormalizeDataFacultyRecords(st: AppState)
    ensures var r := NormalizeData(st);
      && |r.faculties| == |st.faculties|
      && forall i :: 0 <= i < |st.faculties| ==> r.faculties[i] == st.faculties[i].(id := r.faculties[i].id)
  {
  }

  /** Only courses, faculty, the three course join tables, the structure lists and the
      course-objective keys change; sub-blocks and everything else stay. */
  lemma NormalizeDataFrame(st: AppState)
    ensures var r := NormalizeData(st);
      && r == st.(courses := r.courses, faculties := r.faculties, courseSoMap := r.courseSoMap,
                  coursePiMap := r.coursePiMap, coursePeoMap := r.coursePeoMap, generalInfo := r.generalInfo)
      && r.generalInfo == st.generalInfo.(moetInfo := r.Moet())
      && r.Moet() == st.Moet().(programStructure := r.Moet().programStructure,
                                courseObjectiveMap := r.Moet().courseObjectiveMap)
  {
  }

  /** Every base id is free of `_`. */
  lemma BasesPlain(cs: seq<Course>)
    ensures forall k :: 0 <= k < |cs| ==> NoUnderscore(CourseBases(cs)[k])
  {
  }

  /** The regenerated faculty ids are pairwise distinct. */
  lemma NormalizeDataFacultyIdsDistinct(st: AppState)
    ensures var r := NormalizeData(st);
      forall i, j :: 0 <= i < j < |r.faculties| ==> r.faculties[i].id != r.faculties[j].id
  {
    NewFacultyIdsDistinct(st.faculties, st.language);
  }

  /** The regenerated course ids are pairwise distinct when the old course ids were. */
  lemma NormalizeDataCourseIdsDistinct(st: AppState)
    requires Distinct(CourseKeys(st.courses))
    ensures var r := NormalizeData(st);
      forall i, j :: 0 <= i < j < |r.courses| ==> r.courses[i].id != r.courses[j].id
  {
    BasesPlain(st.courses);
    AssignDistinct(CourseKeys(st.courses), CourseBases(st.courses), |st.courses|);
  }

  /** After the pass every course reference in the join tables resolves to a course. */
  lemma NormalizeDataResolvesJoins(st: AppState)
    ensures var r := NormalizeData(st);
      && (forall e :: e in r.courseSoMap ==> e.courseId in CourseIds(r.courses))
      && (forall e :: e in r.coursePiMap ==> e.courseId in CourseIds(r.courses))
      && (forall e :: e in r.coursePeoMap ==> e.courseId in CourseIds(r.courses))
  {
  }

  /** Every id in the four structure lists resolves to a course. */
  lemma NormalizeDataResolvesStructure(st: AppState)
    ensures var r := NormalizeData(st);
      forall b: Block, x :: x in r.Moet().programStructure.Get(b) ==> x in CourseIds(r.courses)
  {
    RecomputeStructure(st, AssignAll(st.courses), NewCourseIds(st));
  }

  lemma RecomputeStructure(st: AppState, a: Assignment, valid: set<string>)
    requires |a.ids| == |st.courses|
    ensures forall b: Block, x :: x in Recompute(st, a, valid).structure.Get(b) ==> x in valid
  {
  }

  /** Every `course|objective` key of the result comes from a key of the input whose course
      resolves, with the course half rewritten and the objective half kept. */
  lemma NormalizeDataResolvesKeys(st: AppState)
    ensures var r := NormalizeData(st);
      var m := AssignAll(st.courses).idMap;
      forall k :: k in r.Moet().courseObjectiveMap ==>
        exists k0 :: k0 in st.Moet().courseObjectiveMap && Resolve(m, KeyCourse(k0)) in CourseIds(r.courses)
                  && k == Resolve(m, KeyCourse(k0)) + "|" + KeyObjective(k0)
  {
  }

  /** Every instructor reference of the result names a faculty member of the result. */
  lemma NormalizeDataResolvesInstructors(st: AppState)
    ensures var r := NormalizeData(st);
      && (forall c, x :: c in r.courses && x in c.instructorIds ==> x in FacultyIds(r.faculties))
      && (forall c, x :: c in r.courses && x in c.instructorDetails ==> x in FacultyIds(r.faculties))
  {
    var r := NormalizeData(st);
    forall c, x | c in r.courses && x in c.instructorIds ensures x in FacultyIds(r.faculties) {
      var i :| 0 <= i < |r.courses| && r.courses[i] == c;
    }
    forall c, x | c in r.courses && x in c.instructorDetails ensures x in FacultyIds(r.faculties) {
      var i :| 0 <= i < |r.courses| && r.courses[i] == c;
    }
  }

  /** No valid link is lost (old course ids distinct): an entry that pointed at an existing
      course survives, pointing at that course's new id. */
  lemma NormalizeDataKeepsLinks(st: AppState, e: CourseSo, k: nat)
    requires Distinct(CourseKeys(st.courses))
    requires e in st.courseSoMap && k < |st.courses| && e.courseId == st.courses[k].id
    ensures e.(courseId := NormalizeData(st).courses[k].id) in NormalizeData(st).courseSoMap
  {
    var keys, bases := CourseKeys(st.courses), CourseBases(st.courses);
    var a := AssignAll(st.courses);
    AssignMapsEach(keys, bases, |st.courses|);
    AssignShape(keys, bases, |st.courses|);
    var r := NormalizeData(st);
    assert a.ids[k] != "" by {
      assert bases[k] != "";
    }
    assert Resolve(a.idMap, e.courseId) == r.courses[k].id;
    assert r.courses[k] in r.courses;
  }

  /** No valid objective key is lost (old course ids distinct): a key whose course half names
      an existing course survives, with that course's new id as its course half and the same
      objective half. */
  lemma NormalizeDataKeepsKeys(st: AppState, key: string, k: nat)
    requires Distinct(CourseKeys(st.courses))
    requires key in st.Moet().courseObjectiveMap && k < |st.courses| && KeyCourse(key) == st.courses[k].id
    ensures NormalizeData(st).courses[k].id + "|" + KeyObjective(key) in NormalizeData(st).Moet().courseObjectiveMap
  {
    var keys, bases := CourseKeys(st.courses), CourseBases(st.courses);
    var a := AssignAll(st.courses);
    AssignMapsEach(keys, bases, |st.courses|);
    AssignShape(keys, bases, |st.courses|);
    var r := NormalizeData(st);
    assert a.ids[k] != "" by {
      assert bases[k] != "";
    }
    assert Resolve(a.idMap, KeyCourse(key)) == r.courses[k].id;
    assert r.courses[k] in r.courses;
  }

  /** No course placed in a structure list is lost (old course ids distinct): it stays in
      that list under its new id. */
  lemma NormalizeDataKeepsPlacements(st: AppState, b: Block, k: nat)
    requires Distinct(CourseKeys(st.courses))
    requires k < |st.courses| && st.courses[k].id in st.Moet().programStructure.Get(b)
    ensures NormalizeData(st).courses[k].id in NormalizeData(st).Moet().programStructure.Get(b)
  {
    var keys, bases := CourseKeys(st.courses), CourseBases(st.courses);
    var a := AssignAll(st.courses);
    AssignMapsEach(keys, bases, |st.courses|);
    AssignShape(keys, bases, |st.courses|);
    var r := NormalizeData(st);
    assert a.ids[k] != "" by {
      assert bases[k] != "";
    }
    assert Resolve(a.idMap, st.courses[k].id) == r.courses[k].id;
    assert r.courses[k] in r.courses;
  }
}
