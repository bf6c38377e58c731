/**
 * The course catalog as comma-separated text: the export writes one row per course, the
 * import reads rows back (old and new column layouts), and the merge updates the catalog
 * fields of known courses and appends unknown ones.
 */
module CatalogCsv {

  import opened Wrappers
  import opened Types
  import opened Seqs
  import opened Text
  import opened Numbers
  import opened CourseFields

  // ---------------------------------------------------------------------------------------
  // Quote-aware cell split

  function Quotes(s: string): nat
  {
    Count(s, '"')
  }

  /** A comma separates two cells when an even number of double quotes follow it on the
      line, i.e. when it is not inside a quoted cell. */
  predicate IsSeparator(s: string, k: int)
  {
    0 <= k < |s| && s[k] == ',' && Quotes(s[k + 1..]) % 2 == 0
  }

  /** The first separator at or after position k. */
  function FirstSeparator(s: string, k: nat): (r: Option<nat>)
    requires k <= |s|
    ensures r.Some? ==> k <= r.value < |s| && IsSeparator(s, r.value)
    ensures forall j :: k <= j < |s| && (r.None? || j < r.value) ==> !IsSeparator(s, j)
    decreases |s| - k
  {
    if k == |s| then None
    else if IsSeparator(s, k) then Some(k)
    else FirstSeparator(s, k + 1)
  }

  /** `line.split(/,(?=(?:(?:[^"]*"){2})*[^"]*$)/)`: the pieces between separators. */
  function SplitCells(s: string): (r: seq<string>)
    ensures |r| >= 1
    decreases |s|
  {
    match FirstSeparator(s, 0)
    case None => [s]
    case Some(k) => [s[..k]] + SplitCells(s[k + 1..])
  }

  /** `.replace(/^"|"$/g, '')`: one leading and one trailing double quote removed. */
  function Unquote(s: string): (r: string)
    ensures |r| <= |s|
  {
    var a := if |s| >= 1 && s[0] == '"' then s[1..] else s;
    if |a| >= 1 && a[|a| - 1] == '"' then a[..|a| - 1] else a
  }

  /** The columns of a line: each cell trimmed and unquoted. */
  function Columns(line: string): (cols: seq<string>)
    ensures |cols| == |SplitCells(line)|
    ensures forall k :: 0 <= k < |cols| ==> cols[k] == Unquote(Trim(SplitCells(line)[k]))
  {
    var cells := SplitCells(line);
    seq(|cells|, k requires 0 <= k < |cells| => Unquote(Trim(cells[k])))
  }

  // ---------------------------------------------------------------------------------------
  // Reading a row

  /** `cols[k]`, undefined past the end. */
  function Col(cols: seq<string>, k: nat): (r: Option<string>)
    ensures r.Some? <==> k < |cols|
  {
    if k < |cols| then Some(cols[k]) else None
  }

  /** A defined, non-empty string (JavaScript truthiness). */
  predicate Truthy(v: Option<string>)
  {
    v.Some? && v.value != ""
  }

  /** `v === '1' || v === 'true'`. */
  predicate Flag(v: Option<string>)
  {
    v == Some("1") || v == Some("true")
  }

  function TypeToken(t: CourseType): string
  {
    match t
    case Required => "REQUIRED"
    case Elective => "ELECTIVE"
    case SelectedElective => "SELECTED_ELECTIVE"
  }

  /** The three type tokens; anything else is not a type (the old layout). */
  function ParseTypeToken(s: string): (r: Option<CourseType>)
    ensures r.Some? <==> s == "REQUIRED" || s == "ELECTIVE" || s == "SELECTED_ELECTIVE"
    ensures r.Some? ==> TypeToken(r.value) == s
  {
    if s == "REQUIRED" then Some(Required)
    else if s == "ELECTIVE" then Some(Elective)
    else if s == "SELECTED_ELECTIVE" then Some(SelectedElective)
    else None
  }

  /** `v ? v.split(',').map(s => s.trim()).filter(Boolean) : []`. */
  function ListCell(v: Option<string>): (r: seq<string>)
    ensures forall p :: p in r ==> p != ""
    ensures !Truthy(v) ==> r == []
  {
    if !Truthy(v) then []
    else
      var parts := SplitOn(v.value, ',');
      Filter(seq(|parts|, k requires 0 <= k < |parts| => Trim(parts[k])), (p: string) => p != "")
  }

  /** The syllabus half of an imported row: empty. */
  const EmptyContent := Content(0, EmptyText, [], Clos([], []), [], [], [], map[], [])

  /** Column 6 read as a type token: `Some` exactly when the row has the new layout. */
  function RowType(cols: seq<string>): Option<CourseType>
  {
    ParseTypeToken(if Truthy(Col(cols, 6)) then Upper(cols[6]) else "")
  }

  /** Where the relation lists start: column 7 in the new layout, column 6 in the old one. */
  function ListStart(cols: seq<string>): (at: nat)
    ensures at == 6 || at == 7
  {
    if RowType(cols).Some? then 7 else 6
  }

  predicate RowEssential(cols: seq<string>)
  {
    Flag(Col(cols, ListStart(cols) + 2))
  }

  /** The ABET column, or the essential flag when the row has no ABET column. */
  predicate RowAbet(cols: seq<string>)
  {
    if Col(cols, ListStart(cols) + 3).Some? then Flag(Col(cols, ListStart(cols) + 3)) else RowEssential(cols)
  }

  function RowArea(cols: seq<string>): (r: string)
    ensures r != ""
  {
    if Truthy(Col(cols, ListStart(cols) + 4)) then cols[ListStart(cols) + 4] else "other"
  }

  /** `parseInt(credits) || 0`. */
  function RowCredits(cols: seq<string>): int
    requires |cols| >= 5
  {
    match ParseInt(cols[4])
    case Some(n) => n
    case None => 0
  }

  /** `parseInt(semester) || 1`: a missing, unreadable or zero semester is 1. */
  function RowSemester(cols: seq<string>): (r: int)
    ensures r != 0
  {
    match (if |cols| > 5 then ParseInt(cols[5]) else None)
    case Some(n) => if n != 0 then n else 1
    case None => 1
  }

  /** The course a row of at least five columns describes, line `i` of the file. */
  function RowFromColumns(cols: seq<string>, i: nat, now: string): (c: Course)
    requires |cols| >= 5
    ensures && c.id != "" && c.code != "" && c.semester != 0 && c.knowledgeAreaId != ""
            && ContentOf(c) == EmptyContent
  {
    var c := Course(
      if cols[0] != "" then cols[0] else "CID-" + now + "-" + IntToString(i),
      if cols[1] != "" then cols[1] else "NEW",
      LocalizedString(cols[2], cols[3]), RowCredits(cols),
      RowEssential(cols), Some(RowAbet(cols)), RowType(cols).GetOr(Required),
      RowArea(cols), RowSemester(cols),
      0, ListCell(Col(cols, ListStart(cols))), ListCell(Col(cols, ListStart(cols) + 1)),
      EmptyText, [], Clos([], []), [], [], [], map[], []);
    assert ContentOf(c) == EmptyContent;
    c
  }

  /** A trimmed, non-blank data line (line `i` of the file) read as a course; `None` when it
      has fewer than five columns. When column 6 holds a type token the new layout is read
      (lists from column 7), otherwise the old one (lists from column 6). Missing id, code,
      credits, semester and area get `CID-<now>-<i>`, `NEW`, 0, 1 and `other`. */
  function ParseRow(line: string, i: nat, now: string): (r: Option<Course>)
    ensures r.None? <==> |Columns(line)| < 5
    ensures r.Some? ==> && r.value.id != "" && r.value.code != "" && r.value.semester != 0
                        && r.value.knowledgeAreaId != "" && ContentOf(r.value) == EmptyContent
  {
    var cols := Columns(line);
    if |cols| < 5 then None else Some(RowFromColumns(cols, i, now))
  }

  /** What line `i` of the file contributes: nothing for a blank line or a short row. */
  function LineCourse(lines: seq<string>, i: nat, now: string): seq<Course>
    requires i < |lines|
  {
    var line := Trim(lines[i]);
    if line == "" then []
    else
      match ParseRow(line, i, now)
      case None => []
      case Some(c) => [c]
  }

  /** The courses read from lines 1 .. n - 1 (line 0 is the header). */
  function RowsUpTo(lines: seq<string>, n: nat, now: string): seq<Course>
    requires n <= |lines|
  {
    if n <= 1 then [] else RowsUpTo(lines, n - 1, now) + LineCourse(lines, n - 1, now)
  }

  /** Every course read has an id, a code, a non-zero semester, an area and an empty
      syllabus. */
  lemma {:induction false} RowsUpToShape(lines: seq<string>, n: nat, now: string)
    requires n <= |lines|
    ensures forall c :: c in RowsUpTo(lines, n, now) ==>
              && c.id != "" && c.code != "" && c.semester != 0 && c.knowledgeAreaId != "" && ContentOf(c) == EmptyContent
  {
    if n > 1 {
      RowsUpToShape(lines, n - 1, now);
    }
  }

  /** The loop invariant: `rows` are the courses read from the lines before line i. */
  ghost predicate ReadUpTo(lines: seq<string>, i: nat, now: string, rows: seq<Course>)
  {
    i <= |lines| && rows == RowsUpTo(lines, i, now)
  }

  lemma ReadStep(lines: seq<string>, i: nat, now: string, rows: seq<Course>)
    requires 1 <= i < |lines| && ReadUpTo(lines, i, now, rows)
    ensures ReadUpTo(lines, i + 1, now, rows + LineCourse(lines, i, now))
  {
  }

  /** `handleImportCatalog`'s loop: every data line read in order, blank lines and short
      rows contributing nothing. */
  method ReadRows(lines: seq<string>, now: string) returns (newCourses: seq<Course>)
    ensures newCourses == RowsUpTo(lines, |lines|, now)
  {
    newCourses := [];
    var i := 1;
    if |lines| == 0 {
      return;
    }
    while i < |lines|
      invariant 1 <= i <= |lines|
      invariant ReadUpTo(lines, i, now, newCourses)
    {
      ReadStep(lines, i, now, newCourses);
      newCourses := newCourses + LineCourse(lines, i, now);
      i := i + 1;
    }
  }

  /** The file split into lines and read. */
  method ParseCatalog(text: string, now: string) returns (newCourses: seq<Course>)
    ensures newCourses == RowsUpTo(SplitOn(text, '\n'), |SplitOn(text, '\n')|, now)
  {
    var lines := SplitOn(text, '\n');
    newCourses := ReadRows(lines, now);
  }

  // ---------------------------------------------------------------------------------------
  // Merging into the catalog

  /** `importMap.get(id)`: the last imported course with that id. */
  function LastWithId(cs: seq<Course>, id: string): (r: Option<Course>)
    ensures r.Some? ==> r.value in cs && r.value.id == id
    ensures r.None? <==> id !in CourseIds(cs)
  {
    if cs == [] then None
    else if cs[|cs| - 1].id == id then Some(cs[|cs| - 1])
    else
      assert forall c :: c in cs <==> c in cs[..|cs| - 1] || c == cs[|cs| - 1] by {
        assert cs == cs[..|cs| - 1] + [cs[|cs| - 1]];
      }
      LastWithId(cs[..|cs| - 1], id)
  }

  /** An existing course with an imported catalog record: the ten catalog fields are the
      imported ones, the id and the syllabus content stay. */
  function UpdateFromRow(existing: Course, incoming: Course): (r: Course)
    ensures CatalogOf(r) == CatalogOf(incoming).(id := existing.id)
    ensures ContentOf(r) == ContentOf(existing)
  {
    Assemble(CatalogOf(incoming).(id := existing.id), ContentOf(existing))
  }

  /** `!existingIds.has(c.id)`: the imported row names no course of the current catalog. */
  function NotIn(prev: seq<Course>): Course -> bool
  {
    (c: Course) => c.id !in CourseIds(prev)
  }

  /** The merge: existing courses keep their place and are updated from the last imported
      row with their id; imported rows with an unknown id are appended in order. */
  function MergeCatalog(prev: seq<Course>, incoming: seq<Course>): (r: seq<Course>)
    ensures |r| >= |prev|
    ensures forall i :: 0 <= i < |prev| ==>
              && r[i].id == prev[i].id
              && ContentOf(r[i]) == ContentOf(prev[i])
              && (prev[i].id !in CourseIds(incoming) ==> r[i] == prev[i])
              && (prev[i].id in CourseIds(incoming) ==>
                    CatalogOf(r[i]) == CatalogOf(LastWithId(incoming, prev[i].id).value))
    ensures forall c :: c in r[|prev|..] <==> c in incoming && c.id !in CourseIds(prev)
    ensures r[|prev|..] == Filter(incoming, NotIn(prev))
    ensures (forall c :: c in incoming ==> c.id in CourseIds(prev)) ==> |r| == |prev|
  {
    var updated := seq(|prev|, i requires 0 <= i < |prev| =>
                         match LastWithId(incoming, prev[i].id)
                         case None => prev[i]
                         case Some(inc) => UpdateFromRow(prev[i], inc));
    var unknown := NotIn(prev);
    var added := Filter(incoming, unknown);
    FilterNone(incoming, unknown);
    assert (updated + added)[|prev|..] == added;
    updated + added
  }

  lemma IdsSplit(r: seq<Course>, n: nat)
    requires n <= |r|
    ensures CourseIds(r) == CourseIds(r[..n]) + CourseIds(r[n..])
  {
    assert r == r[..n] + r[n..];
    assert forall c :: c in r <==> c in r[..n] || c in r[n..];
  }

  lemma SameIds(a: seq<Course>, b: seq<Course>)
    requires |a| == |b| && forall i :: 0 <= i < |a| ==> a[i].id == b[i].id
    ensures CourseIds(a) == CourseIds(b)
  {
    forall x | x in CourseIds(a) ensures x in CourseIds(b) {
      var c :| c in a && c.id == x;
      var i :| 0 <= i < |a| && a[i] == c;
      assert b[i] in b;
    }
    forall x | x in CourseIds(b) ensures x in CourseIds(a) {
      var c :| c in b && c.id == x;
      var i :| 0 <= i < |b| && b[i] == c;
      assert a[i] in a;
    }
  }

  /** After the merge the catalog holds exactly the old ids and the imported ones. */
  lemma MergeCatalogIds(prev: seq<Course>, incoming: seq<Course>)
    ensures CourseIds(MergeCatalog(prev, incoming)) == CourseIds(prev) + CourseIds(incoming)
  {
    var r := MergeCatalog(prev, incoming);
    IdsSplit(r, |prev|);
    SameIds(r[..|prev|], prev);
    var added := r[|prev|..];
    assert CourseIds(added) == CourseIds(incoming) - CourseIds(prev) by {
      forall x | x in CourseIds(incoming) - CourseIds(prev) ensures x in CourseIds(added) {
        var c :| c in incoming && c.id == x;
        assert c in added;
      }
    }
  }

  /** `handleImportCatalog`: the rows read from the file are merged into the catalog when
      there is at least one; nothing else changes. */
  method ImportCatalog(st: AppState, text: string, now: string) returns (next: AppState)
    ensures var rows := RowsUpTo(SplitOn(text, '\n'), |SplitOn(text, '\n')|, now);
              next == st.(courses := if rows == [] then st.courses else MergeCatalog(st.courses, rows))
  {
    var newCourses := ParseCatalog(text, now);
    next := st;
    if |newCourses| > 0 {
      next := st.(courses := MergeCatalog(st.courses, newCourses));
    }
  }

  // ---------------------------------------------------------------------------------------
  // Writing the catalog

  const HeaderNames := ["ID", "Code", "Name_VI", "Name_EN", "Credits", "Semester", "Type", "Prerequisites",
                        "Co-requisite", "Essential", "ABET", "AreaID"]

  /** `ID,Code,Name_VI,Name_EN,Credits,Semester,Type,Prerequisites,Co-requisite,Essential,ABET,AreaID`. */
  const Header := JoinWith(HeaderNames, ",")

  function Quoted(s: string): string
  {
    "\"" + s + "\""
  }

  function FlagCell(b: bool): string
  {
    if b then "1" else "0"
  }

  /** The cells of one exported row. */
  function RowCells(c: Course): (r: seq<string>)
    ensures |r| == 12
  {
    [c.id, c.code, Quoted(c.name.vi), Quoted(c.name.en), IntToString(c.credits), IntToString(c.semester),
     TypeToken(c.kind), Quoted(JoinWith(c.prerequisites, ", ")), Quoted(JoinWith(c.coRequisites, ", ")),
     FlagCell(c.isEssential), FlagCell(c.isAbet == Some(true)), c.knowledgeAreaId]
  }

  function ExportRow(c: Course): string
  {
    JoinWith(RowCells(c), ",")
  }

  /** `handleExportCatalog`: a byte-order mark, the header line, then one line per course. */
  function ExportRows(cs: seq<Course>): (r: seq<string>)
    ensures |r| == |cs| && forall k :: 0 <= k < |cs| ==> r[k] == ExportRow(cs[k])
  {
    seq(|cs|, k requires 0 <= k < |cs| => ExportRow(cs[k]))
  }

  function ExportCatalog(cs: seq<Course>): string
  {
    "\U{FEFF}" + JoinWith([Header] + ExportRows(cs), "\n")
  }

  // ---------------------------------------------------------------------------------------
  // Round trip

  /** A cell written without quotes: no quote, comma or line break, and no surrounding
      whitespace. */
  predicate Bare(s: string)
  {
    '"' !in s && ',' !in s && '\n' !in s && (s == [] || (!IsSpace(s[0]) && !IsSpace(s[|s| - 1])))
  }

  /** A course whose catalog record survives export and import: id, code and area present
      and bare; names without quotes or line breaks; relation codes present and bare; a
      non-zero semester; an explicit ABET flag. */
  predicate Exportable(c: Course)
  {
    && c.id != "" && Bare(c.id) && c.code != "" && Bare(c.code)
    && c.knowledgeAreaId != "" && Bare(c.knowledgeAreaId)
    && '"' !in c.name.vi && '\n' !in c.name.vi && '"' !in c.name.en && '\n' !in c.name.en
    && c.semester != 0 && c.isAbet.Some?
    && (forall p :: p in c.prerequisites ==> p != "" && Bare(p))
    && (forall p :: p in c.coRequisites ==> p != "" && Bare(p))
  }

  predicate PlainCell(s: string)
  {
    '"' !in s && ',' !in s
  }

  predicate QuotedCell(s: string)
  {
    |s| >= 2 && s[0] == '"' && s[|s| - 1] == '"' && '"' !in s[1..|s| - 1]
  }

  predicate WellFormedCell(s: string)
  {
    PlainCell(s) || QuotedCell(s)
  }

  lemma CellQuotesEven(c: string)
    requires WellFormedCell(c)
    ensures Quotes(c) % 2 == 0
  {
    if !PlainCell(c) {
      var mid := c[1..|c| - 1];
      Ends(c);
      CountAppend(['"'] + mid, ['"'], '"');
      CountAppend(['"'], mid, '"');
    }
  }

  lemma QuotesAround(a: string, b: string)
    ensures Quotes(a + "," + b) == Quotes(a) + Quotes(b)
  {
    CountAppend(a + ",", b, '"');
    CountAppend(a, ",", '"');
    assert ","[1..] == [];
  }

  lemma {:induction false} JoinQuotesEven(cells: seq<string>)
    requires forall k :: 0 <= k < |cells| ==> WellFormedCell(cells[k])
    ensures Quotes(JoinWith(cells, ",")) % 2 == 0
    decreases |cells|
  {
    if |cells| == 1 {
      CellQuotesEven(cells[0]);
    } else if |cells| >= 2 {
      JoinQuotesEven(cells[1..]);
      CellQuotesEven(cells[0]);
      QuotesAround(cells[0], JoinWith(cells[1..], ","));
    }
  }

  /** A comma inside a quoted cell has an odd number of quotes after it. */
  lemma CommaInQuotedCell(c: string, tail: string, j: nat)
    requires QuotedCell(c) && Quotes(tail) % 2 == 0 && j < |c| && c[j] == ','
    ensures !IsSeparator(c + tail, j)
  {
    var inner := c[j + 1..|c| - 1];
    assert '"' !in inner by {
      forall x | x in inner ensures x != '"' {
        var k :| 0 <= k < |inner| && inner[k] == x;
        assert x == c[1..|c| - 1][j + k];
      }
    }
    assert (c + tail)[j + 1..] == inner + (['"'] + tail);
    CountAppend(inner, ['"'] + tail, '"');
    CountAppend(['"'], tail, '"');
  }

  /** No comma of a well-formed cell separates, whatever even-quoted text follows it. */
  lemma NoSeparatorInCell(c: string, tail: string)
    requires WellFormedCell(c) && Quotes(tail) % 2 == 0
    ensures forall j :: 0 <= j < |c| ==> !IsSeparator(c + tail, j)
  {
    forall j | 0 <= j < |c| ensures !IsSeparator(c + tail, j) {
      assert (c + tail)[j] == c[j];
      if c[j] == ',' {
        assert c[j] in c;
        CommaInQuotedCell(c, tail, j);
      }
    }
  }

  /** The separator at k is the first one. */
  lemma FirstSeparatorAt(s: string, k: nat)
    requires IsSeparator(s, k) && forall j :: 0 <= j < k ==> !IsSeparator(s, j)
    ensures FirstSeparator(s, 0) == Some(k)
  {
  }

  lemma CellThenRest(c: string, rest: string)
    ensures (c + ("," + rest))[..|c|] == c && (c + ("," + rest))[|c| + 1..] == rest
    ensures (c + ("," + rest))[|c|] == ','
  {
  }

  /** The text after the first cell of a row of well-formed cells is the rest of the row. */
  lemma FirstCell(c: string, rest: string)
    requires WellFormedCell(c) && Quotes(rest) % 2 == 0
    ensures SplitCells(c + ("," + rest)) == [c] + SplitCells(rest)
  {
    var s := c + ("," + rest);
    CountAppend(",", rest, '"');
    NoSeparatorInCell(c, "," + rest);
    CellThenRest(c, rest);
    FirstSeparatorAt(s, |c|);
  }

  /** Splitting a row of well-formed cells gives the cells back. */
  lemma {:induction false} SplitJoinCells(cells: seq<string>)
    requires |cells| >= 1 && forall k :: 0 <= k < |cells| ==> WellFormedCell(cells[k])
    ensures SplitCells(JoinWith(cells, ",")) == cells
    decreases |cells|
  {
    var c := cells[0];
    if |cells| == 1 {
      NoSeparatorInCell(c, "");
      assert c + "" == c;
    } else {
      var tail := cells[1..];
      assert forall k :: 0 <= k < |tail| ==> WellFormedCell(tail[k]) by {
        forall k | 0 <= k < |tail| ensures WellFormedCell(tail[k]) {
          assert tail[k] == cells[k + 1];
        }
      }
      var rest := JoinWith(tail, ",");
      JoinCons(c, tail, ",");
      assert cells == [c] + tail;
      assert c + "," + rest == c + ("," + rest);
      JoinQuotesEven(tail);
      FirstCell(c, rest);
      SplitJoinCells(tail);
    }
  }

  lemma {:induction false} JoinFirst(parts: seq<string>, sep: string)
    requires |parts| >= 1 && parts[0] != []
    ensures JoinWith(parts, sep) != [] && JoinWith(parts, sep)[0] == parts[0][0]
  {
  }

  lemma {:induction false} JoinLast(parts: seq<string>, sep: string)
    requires |parts| >= 1 && parts[|parts| - 1] != []
    ensures var j := JoinWith(parts, sep); j != [] && j[|j| - 1] == parts[|parts| - 1][|parts[|parts| - 1]| - 1]
    decreases |parts|
  {
    if |parts| >= 2 {
      JoinLast(parts[1..], sep);
    }
  }

  lemma {:induction false} JoinNoChar(parts: seq<string>, sep: string, x: char)
    requires forall k :: 0 <= k < |parts| ==> x !in parts[k]
    requires x !in sep
    ensures x !in JoinWith(parts, sep)
    decreases |parts|
  {
    if |parts| >= 2 {
      JoinNoChar(parts[1..], sep, x);
    }
  }

  /** Codes joined with ", " hold no quote and no line break. */
  lemma CodesJoinClean(ps: seq<string>)
    requires forall p :: p in ps ==> Bare(p)
    ensures '"' !in JoinWith(ps, ", ") && '\n' !in JoinWith(ps, ", ")
  {
    assert forall k :: 0 <= k < |ps| ==> '"' !in ps[k] && '\n' !in ps[k] by {
      forall k | 0 <= k < |ps| ensures '"' !in ps[k] && '\n' !in ps[k] {
        assert ps[k] in ps;
      }
    }
    JoinNoChar(ps, ", ", '"');
    JoinNoChar(ps, ", ", '\n');
  }

  lemma TokenBare(t: CourseType)
    ensures Bare(TypeToken(t)) && TypeToken(t) != ""
  {
    var s := TypeToken(t);
    assert forall k :: 0 <= k < |s| ==> IsAsciiUpper(s[k]) || s[k] == '_';
  }

  lemma FlagBare(b: bool)
    ensures Bare(FlagCell(b))
  {
    var s := FlagCell(b);
    assert |s| == 1 && IsDigit(s[0]);
  }

  lemma IntCellBare(n: int)
    ensures Bare(IntToString(n))
  {
    var s := IntToString(n);
    forall x | x in s ensures x != '"' && x != ',' && x != '\n' && !IsSpace(x) {
      var k :| 0 <= k < |s| && s[k] == x;
    }
  }

  lemma BareRead(s: string)
    requires Bare(s)
    ensures Unquote(Trim(s)) == s
  {
    TrimTrimmed(s);
    if s != [] {
      assert s[0] in s && s[|s| - 1] in s;
    }
  }

  lemma QuotedRead(t: string)
    ensures Unquote(Trim(Quoted(t))) == t
  {
    var q := Quoted(t);
    TrimTrimmed(q);
    assert q[1..] == t + "\"";
  }

  /** Splitting codes joined with ", " on commas gives the first code and the others, each
      with one leading space. */
  lemma SplitCodes(ps: seq<string>)
    requires |ps| >= 1 && forall k :: 0 <= k < |ps| ==> ',' !in ps[k]
    ensures SplitOn(JoinWith(ps, ", "), ',') == [ps[0]] + Indent(ps[1..])
  {
    var spaced := [ps[0]] + Indent(ps[1..]);
    JoinIndent(ps);
    forall k | 0 <= k < |spaced| ensures ',' !in spaced[k] {
      if k > 0 {
        assert spaced[k] == " " + ps[k];
      }
    }
    SplitJoin(spaced, ',');
  }

  lemma TrimCodes(ps: seq<string>)
    requires |ps| >= 1 && forall k :: 0 <= k < |ps| ==> ps[k] != "" && Bare(ps[k])
    ensures var spaced := [ps[0]] + Indent(ps[1..]);
      seq(|spaced|, k requires 0 <= k < |spaced| => Trim(spaced[k])) == ps
  {
    var spaced := [ps[0]] + Indent(ps[1..]);
    var trimmed := seq(|spaced|, k requires 0 <= k < |spaced| => Trim(spaced[k]));
    forall k | 0 <= k < |ps| ensures trimmed[k] == ps[k] {
      if k == 0 {
        TrimTrimmed(ps[0]);
      } else {
        assert spaced[k] == " " + ps[k];
        TrimLeadingSpace(ps[k]);
      }
    }
  }

  /** Bare, non-empty codes joined with ", " read back as the same list. */
  lemma ListCellJoin(ps: seq<string>)
    requires forall p :: p in ps ==> p != "" && Bare(p)
    ensures ListCell(Some(JoinWith(ps, ", "))) == ps
  {
    if ps != [] {
      assert forall k :: 0 <= k < |ps| ==> ps[k] != "" && Bare(ps[k]) by {
        forall k | 0 <= k < |ps| ensures ps[k] != "" && Bare(ps[k]) {
          assert ps[k] in ps;
        }
      }
      JoinFirst(ps, ", ");
      SplitCodes(ps);
      TrimCodes(ps);
      FilterAll(ps, (p: string) => p != "");
    }
  }

  function Indent(qs: seq<string>): (r: seq<string>)
    ensures |r| == |qs| && forall k :: 0 <= k < |qs| ==> r[k] == " " + qs[k]
  {
    seq(|qs|, k requires 0 <= k < |qs| => " " + qs[k])
  }

  lemma {:induction false} JoinIndentTail(qs: seq<string>)
    requires |qs| >= 1
    ensures JoinWith(Indent(qs), ",") == " " + JoinWith(qs, ", ")
    decreases |qs|
  {
    if |qs| >= 2 {
      assert Indent(qs)[1..] == Indent(qs[1..]);
      JoinIndentTail(qs[1..]);
    }
  }

  lemma JoinCons(x: string, ys: seq<string>, sep: string)
    requires |ys| >= 1
    ensures JoinWith([x] + ys, sep) == x + sep + JoinWith(ys, sep)
  {
    assert ([x] + ys)[1..] == ys;
  }

  lemma CommaSpace(a: string, b: string)
    ensures a + "," + (" " + b) == a + ", " + b
  {
    assert |a + "," + (" " + b)| == |a + ", " + b|;
    forall k | 0 <= k < |a + ", " + b| ensures (a + "," + (" " + b))[k] == (a + ", " + b)[k] {
    }
  }

  lemma JoinIndent(ps: seq<string>)
    requires |ps| >= 1
    ensures JoinWith([ps[0]] + Indent(ps[1..]), ",") == JoinWith(ps, ", ")
  {
    if |ps| >= 2 {
      var rest := JoinWith(ps[1..], ", ");
      JoinIndentTail(ps[1..]);
      JoinCons(ps[0], Indent(ps[1..]), ",");
      CommaSpace(ps[0], rest);
    }
  }

  lemma TrimLeadingSpace(p: string)
    requires p != "" && !IsSpace(p[0]) && !IsSpace(p[|p| - 1])
    ensures Trim(" " + p) == p
  {
    var s := " " + p;
    assert s[1..] == p;
    assert StartIdx(p) == 0;
    assert StartIdx(s) == 1;
    assert EndIdx(s) == |s|;
  }

  /** The columns the import reads from a course's exported row, one by one. */
  ghost predicate ColumnsOf(cols: seq<string>, c: Course)
  {
    && |cols| == 12 && cols[0] == c.id && cols[1] == c.code && cols[2] == c.name.vi && cols[3] == c.name.en
    && cols[4] == IntToString(c.credits) && cols[5] == IntToString(c.semester) && cols[6] == TypeToken(c.kind)
    && cols[7] == JoinWith(c.prerequisites, ", ") && cols[8] == JoinWith(c.coRequisites, ", ")
    && cols[9] == FlagCell(c.isEssential) && cols[10] == FlagCell(c.isAbet == Some(true))
    && cols[11] == c.knowledgeAreaId
  }

  /** A cell that breaks neither the quote-aware split nor the line. */
  predicate CleanCell(s: string)
  {
    WellFormedCell(s) && '\n' !in s
  }

  lemma BareClean(s: string)
    requires Bare(s)
    ensures CleanCell(s)
  {
  }

  lemma QuotedClean(t: string)
    requires '"' !in t && '\n' !in t
    ensures CleanCell(Quoted(t))
  {
    var q := Quoted(t);
    assert q[1..|q| - 1] == t;
  }

  lemma TwelveClean(cells: seq<string>)
    requires |cells| == 12
    requires && CleanCell(cells[0]) && CleanCell(cells[1]) && CleanCell(cells[2]) && CleanCell(cells[3])
             && CleanCell(cells[4]) && CleanCell(cells[5]) && CleanCell(cells[6]) && CleanCell(cells[7])
             && CleanCell(cells[8]) && CleanCell(cells[9]) && CleanCell(cells[10]) && CleanCell(cells[11])
    ensures forall k :: 0 <= k < 12 ==> CleanCell(cells[k])
  {
  }

  /** No cell of an exportable course's row breaks the quote-aware split or the line. */
  lemma RowCellsClean(c: Course)
    requires Exportable(c)
    ensures forall k :: 0 <= k < 12 ==> CleanCell(RowCells(c)[k])
  {
    BareClean(c.id);
    BareClean(c.code);
    QuotedClean(c.name.vi);
    QuotedClean(c.name.en);
    IntCellBare(c.credits);
    BareClean(IntToString(c.credits));
    IntCellBare(c.semester);
    BareClean(IntToString(c.semester));
    TokenBare(c.kind);
    BareClean(TypeToken(c.kind));
    CodesJoinClean(c.prerequisites);
    QuotedClean(JoinWith(c.prerequisites, ", "));
    CodesJoinClean(c.coRequisites);
    QuotedClean(JoinWith(c.coRequisites, ", "));
    FlagBare(c.isEssential);
    BareClean(FlagCell(c.isEssential));
    FlagBare(c.isAbet == Some(true));
    BareClean(FlagCell(c.isAbet == Some(true)));
    BareClean(c.knowledgeAreaId);
    RowCellsAt(c);
    TwelveClean(RowCells(c));
  }

  /** A cell that reads back, trimmed and unquoted, as the value v. */
  predicate ReadsBack(cell: string, v: string)
  {
    Unquote(Trim(cell)) == v
  }

  /** The cells of an exportable course's row read back as the values it exports. */
  lemma CellsReadBack(c: Course)
    requires Exportable(c)
    ensures
      && ReadsBack(c.id, c.id) && ReadsBack(c.code, c.code)
      && ReadsBack(Quoted(c.name.vi), c.name.vi) && ReadsBack(Quoted(c.name.en), c.name.en)
      && ReadsBack(IntToString(c.credits), IntToString(c.credits))
      && ReadsBack(IntToString(c.semester), IntToString(c.semester))
      && ReadsBack(TypeToken(c.kind), TypeToken(c.kind))
      && ReadsBack(Quoted(JoinWith(c.prerequisites, ", ")), JoinWith(c.prerequisites, ", "))
      && ReadsBack(Quoted(JoinWith(c.coRequisites, ", ")), JoinWith(c.coRequisites, ", "))
      && ReadsBack(FlagCell(c.isEssential), FlagCell(c.isEssential))
      && ReadsBack(FlagCell(c.isAbet == Some(true)), FlagCell(c.isAbet == Some(true)))
      && ReadsBack(c.knowledgeAreaId, c.knowledgeAreaId)
  {
    BareRead(c.id);
    BareRead(c.code);
    QuotedRead(c.name.vi);
    QuotedRead(c.name.en);
    IntCellBare(c.credits);
    BareRead(IntToString(c.credits));
    IntCellBare(c.semester);
    BareRead(IntToString(c.semester));
    TokenBare(c.kind);
    BareRead(TypeToken(c.kind));
    QuotedRead(JoinWith(c.prerequisites, ", "));
    QuotedRead(JoinWith(c.coRequisites, ", "));
    FlagBare(c.isEssential);
    BareRead(FlagCell(c.isEssential));
    FlagBare(c.isAbet == Some(true));
    BareRead(FlagCell(c.isAbet == Some(true)));
    BareRead(c.knowledgeAreaId);
  }

  lemma RowCellsAt(c: Course)
    ensures var cells := RowCells(c);
      && cells[0] == c.id && cells[1] == c.code && cells[2] == Quoted(c.name.vi) && cells[3] == Quoted(c.name.en)
      && cells[4] == IntToString(c.credits) && cells[5] == IntToString(c.semester) && cells[6] == TypeToken(c.kind)
      && cells[7] == Quoted(JoinWith(c.prerequisites, ", ")) && cells[8] == Quoted(JoinWith(c.coRequisites, ", "))
      && cells[9] == FlagCell(c.isEssential) && cells[10] == FlagCell(c.isAbet == Some(true))
      && cells[11] == c.knowledgeAreaId
  {
  }

  /** The columns of an exportable course's row are the values it exports. */
  lemma ColumnsOfRow(c: Course)
    requires Exportable(c)
    ensures ColumnsOf(Columns(ExportRow(c)), c)
  {
    RowCellsClean(c);
    SplitJoinCells(RowCells(c));
    CellsReadBack(c);
    RowCellsAt(c);
  }

  lemma UpperToken(t: CourseType)
    ensures Upper(TypeToken(t)) == TypeToken(t)
  {
    var s := TypeToken(t);
    assert forall k :: 0 <= k < |s| ==> IsAsciiUpper(s[k]) || s[k] == '_';
    UpperKeeps(s);
  }

  /** An exported row has the new layout, with the course's type. */
  lemma TypeColumn(cols: seq<string>, c: Course)
    requires ColumnsOf(cols, c)
    ensures RowType(cols) == Some(c.kind) && ListStart(cols) == 7
  {
    TokenBare(c.kind);
    UpperToken(c.kind);
  }

  lemma FlagColumns(cols: seq<string>, c: Course)
    requires ColumnsOf(cols, c) && c.isAbet.Some?
    ensures RowEssential(cols) == c.isEssential
    ensures RowAbet(cols) == c.isAbet.value
  {
    TypeColumn(cols, c);
  }

  lemma AreaColumn(cols: seq<string>, c: Course)
    requires ColumnsOf(cols, c) && c.knowledgeAreaId != ""
    ensures RowArea(cols) == c.knowledgeAreaId
  {
    TypeColumn(cols, c);
  }

  lemma NumberColumns(cols: seq<string>, c: Course)
    requires ColumnsOf(cols, c) && c.semester != 0
    ensures RowCredits(cols) == c.credits && RowSemester(cols) == c.semester
  {
    ParseIntToString(c.credits, 0);
    ParseIntToString(c.semester, 0);
  }

  lemma ListColumns(cols: seq<string>, c: Course)
    requires ColumnsOf(cols, c) && Exportable(c)
    ensures ListCell(Col(cols, 7)) == c.prerequisites
    ensures ListCell(Col(cols, 8)) == c.coRequisites
  {
    ListCellJoin(c.prerequisites);
    ListCellJoin(c.coRequisites);
  }

  /** The exported columns describe the course's catalog record with an empty syllabus. */
  lemma RowFromExported(cols: seq<string>, c: Course, i: nat, now: string)
    requires ColumnsOf(cols, c) && Exportable(c)
    ensures RowFromColumns(cols, i, now) == Assemble(CatalogOf(c), EmptyContent)
  {
    TypeColumn(cols, c);
    FlagColumns(cols, c);
    AreaColumn(cols, c);
    NumberColumns(cols, c);
    ListColumns(cols, c);
  }

  /** An exported row is non-blank and has no surrounding whitespace. */
  lemma RowTrimmed(c: Course)
    requires Exportable(c)
    ensures ExportRow(c) != "" && Trim(ExportRow(c)) == ExportRow(c)
  {
    JoinFirst(RowCells(c), ",");
    JoinLast(RowCells(c), ",");
    TrimTrimmed(ExportRow(c));
  }

  /** An exportable course's row reads back as its catalog record with an empty syllabus. */
  lemma RowRoundTrip(c: Course, i: nat, now: string)
    requires Exportable(c)
    ensures ParseRow(Trim(ExportRow(c)), i, now) == Some(Assemble(CatalogOf(c), EmptyContent))
  {
    RowTrimmed(c);
    ColumnsOfRow(c);
    RowFromExported(Columns(ExportRow(c)), c, i, now);
  }

  /** Each exported line is free of line breaks. */
  lemma RowHasNoBreak(c: Course)
    requires Exportable(c)
    ensures '\n' !in ExportRow(c)
  {
    RowCellsClean(c);
    JoinNoChar(RowCells(c), ",", '\n');
  }

  /** The records an import of exported courses yields: each course's catalog record with
      an empty syllabus. */
  function ImportedRecords(cs: seq<Course>): (r: seq<Course>)
    ensures |r| == |cs|
    ensures forall k :: 0 <= k < |cs| ==> CatalogOf(r[k]) == CatalogOf(cs[k]) && ContentOf(r[k]) == EmptyContent
  {
    seq(|cs|, k requires 0 <= k < |cs| => Assemble(CatalogOf(cs[k]), EmptyContent))
  }

  /** Lines 1 .. |cs| hold the exported rows of cs, in order. */
  ghost predicate ExportedLines(lines: seq<string>, cs: seq<Course>)
  {
    |lines| == |cs| + 1 && forall k :: 0 <= k < |cs| ==> lines[k + 1] == ExportRow(cs[k]) && Exportable(cs[k])
  }

  /** Line k + 1 of such a file reads back as the record of course k. */
  lemma LineRoundTrip(lines: seq<string>, cs: seq<Course>, k: nat, now: string)
    requires ExportedLines(lines, cs) && k < |cs|
    ensures LineCourse(lines, k + 1, now) == [Assemble(CatalogOf(cs[k]), EmptyContent)]
  {
    RowTrimmed(cs[k]);
    RowRoundTrip(cs[k], k + 1, now);
  }

  /** When data line k + 1 reads as recs[k] for every k, the first n lines read as the
      first n - 1 records. */
  lemma {:induction false} RowsFromLines(lines: seq<string>, recs: seq<Course>, now: string, n: nat)
    requires |lines| == |recs| + 1 && 1 <= n <= |lines|
    requires forall k :: 0 <= k < |recs| ==> LineCourse(lines, k + 1, now) == [recs[k]]
    ensures RowsUpTo(lines, n, now) == recs[..n - 1]
  {
    if n >= 2 {
      RowsFromLines(lines, recs, now, n - 1);
      assert LineCourse(lines, n - 1, now) == [recs[n - 2]];
      TakeSnoc(recs, n - 1);
    }
  }

  lemma JoinPrefix(p: string, h: string, rows: seq<string>, sep: string)
    ensures p + JoinWith([h] + rows, sep) == JoinWith([p + h] + rows, sep)
  {
    if rows != [] {
      JoinCons(h, rows, sep);
      JoinCons(p + h, rows, sep);
      var j := JoinWith(rows, sep);
      assert p + (h + sep + j) == p + h + sep + j;
    }
  }

  lemma HeaderNoBreak()
    ensures '\n' !in "\U{FEFF}" + Header
  {
    assert forall k :: 0 <= k < |HeaderNames| ==> '\n' !in HeaderNames[k];
    JoinNoChar(HeaderNames, ",", '\n');
  }

  /** The exported file splits into the header line and the exported rows. */
  lemma ExportLines(cs: seq<Course>)
    requires forall k :: 0 <= k < |cs| ==> Exportable(cs[k])
    ensures SplitOn(ExportCatalog(cs), '\n') == ["\U{FEFF}" + Header] + ExportRows(cs)
  {
    var lines := ["\U{FEFF}" + Header] + ExportRows(cs);
    JoinPrefix("\U{FEFF}", Header, ExportRows(cs), "\n");
    forall k | 0 <= k < |lines| ensures '\n' !in lines[k] {
      if k == 0 {
        HeaderNoBreak();
      } else {
        RowHasNoBreak(cs[k - 1]);
      }
    }
    SplitJoin(lines, '\n');
  }

  lemma ExportedFile(cs: seq<Course>)
    requires forall c :: c in cs ==> Exportable(c)
    ensures ExportedLines(SplitOn(ExportCatalog(cs), '\n'), cs)
  {
    assert forall k :: 0 <= k < |cs| ==> Exportable(cs[k]) by {
      forall k | 0 <= k < |cs| ensures Exportable(cs[k]) {
        assert cs[k] in cs;
      }
    }
    ExportLines(cs);
    var lines := SplitOn(ExportCatalog(cs), '\n');
    forall k | 0 <= k < |cs| ensures lines[k + 1] == ExportRow(cs[k]) {
    }
  }

  /** Every data line of the exported file reads back as the record of its course. */
  lemma ExportedLinesRead(cs: seq<Course>, now: string)
    requires forall c :: c in cs ==> Exportable(c)
    ensures var lines := SplitOn(ExportCatalog(cs), '\n');
      && |lines| == |ImportedRecords(cs)| + 1
      && forall k :: 0 <= k < |cs| ==> LineCourse(lines, k + 1, now) == [ImportedRecords(cs)[k]]
  {
    ExportedFile(cs);
    var lines := SplitOn(ExportCatalog(cs), '\n');
    forall k | 0 <= k < |cs| ensures LineCourse(lines, k + 1, now) == [ImportedRecords(cs)[k]] {
      LineRoundTrip(lines, cs, k, now);
    }
  }

  /** Exporting the catalog and reading the file back yields, row for row, every course's
      catalog record (with an empty syllabus). */
  lemma ExportImportRoundTrip(cs: seq<Course>, now: string)
    requires forall c :: c in cs ==> Exportable(c)
    ensures var lines := SplitOn(ExportCatalog(cs), '\n');
      RowsUpTo(lines, |lines|, now) == ImportedRecords(cs)
  {
    ExportedLinesRead(cs, now);
    var lines := SplitOn(ExportCatalog(cs), '\n');
    var recs := ImportedRecords(cs);
    RowsFromLines(lines, recs, now, |lines|);
    TakeAll(recs);
  }

  lemma {:induction false} LastWithIdUnique(xs: seq<Course>, k: nat)
    requires k < |xs| && forall j :: 0 <= j < |xs| && j != k ==> xs[j].id != xs[k].id
    ensures LastWithId(xs, xs[k].id) == Some(xs[k])
    decreases |xs|
  {
    if k < |xs| - 1 {
      LastWithIdUnique(xs[..|xs| - 1], k);
    }
  }

  /** A course of a catalog with distinct ids is left as it is by the merge of its own
      imported record. */
  lemma MergeOwnRecord(cs: seq<Course>, i: nat)
    requires i < |cs| && forall a, b :: 0 <= a < b < |cs| ==> cs[a].id != cs[b].id
    ensures i < |MergeCatalog(cs, ImportedRecords(cs))| && MergeCatalog(cs, ImportedRecords(cs))[i] == cs[i]
  {
    var parsed := ImportedRecords(cs);
    var r := MergeCatalog(cs, parsed);
    assert forall j :: 0 <= j < |cs| ==> parsed[j].id == cs[j].id;
    LastWithIdUnique(parsed, i);
    assert parsed[i] in parsed;
    AssembleParts(r[i]);
    AssembleParts(cs[i]);
  }

  /** Every imported record of a catalog has a known id, so the merge appends nothing. */
  lemma MergeOwnAddsNothing(cs: seq<Course>)
    ensures |MergeCatalog(cs, ImportedRecords(cs))| == |cs|
  {
    var parsed := ImportedRecords(cs);
    forall c | c in parsed ensures c.id in CourseIds(cs) {
      var j :| 0 <= j < |parsed| && parsed[j] == c;
      assert cs[j] in cs;
    }
  }

  /** Importing the exported file of a catalog with distinct ids into that same catalog
      changes nothing. */
  lemma ExportThenImportIsIdentity(cs: seq<Course>, now: string)
    requires forall c :: c in cs ==> Exportable(c)
    requires forall i, j :: 0 <= i < j < |cs| ==> cs[i].id != cs[j].id
    ensures var lines := SplitOn(ExportCatalog(cs), '\n');
      MergeCatalog(cs, RowsUpTo(lines, |lines|, now)) == cs
  {
    ExportImportRoundTrip(cs, now);
    MergeOwnAddsNothing(cs);
    forall i | 0 <= i < |cs| ensures MergeCatalog(cs, ImportedRecords(cs))[i] == cs[i] {
      MergeOwnRecord(cs, i);
    }
  }
}
