/**
 * The application shell: the document snapshot written by "export", its file name, the
 * document restored by "import", and the sign-in guard.
 */
module AppShell {

  import opened Wrappers
  import opened Types
  import opened Seqs
  import opened Text

  // ---------------------------------------------------------------------------------------
  // Export

  /** The id of the built-in administrator account. */
  const BuiltInAdmin := "u1"

  predicate NotBuiltIn(u: UserAccount) { u.id != BuiltInAdmin }

  /** `handleExport`'s snapshot: the document without the built-in administrator account
      and without the API key; every other user, in order, and every other field are kept. */
  function ExportSnapshot(st: AppState): (r: AppState)
    ensures forall u :: u in r.users <==> u in st.users && u.id != BuiltInAdmin
    ensures r.users == Filter(st.users, NotBuiltIn)
    ensures r.geminiConfig == st.geminiConfig.(apiKey := None)
    ensures r.(users := st.users, geminiConfig := st.geminiConfig) == st
  {
    st.(users := Filter(st.users, NotBuiltIn), geminiConfig := st.geminiConfig.(apiKey := None))
  }

  /** Exporting a snapshot again changes nothing. */
  lemma {:induction false} ExportSnapshotTwice(st: AppState)
    ensures ExportSnapshot(ExportSnapshot(st)) == ExportSnapshot(st)
  {
    FilterAll(Filter(st.users, NotBuiltIn), NotBuiltIn);
  }

  /** Characters `sanitize` keeps: `[a-zA-Z0-9-_]`. */
  predicate IsSafe(c: char)
  {
    IsAsciiLower(c) || IsAsciiUpper(c) || IsDigit(c) || c == '-' || c == '_'
  }

  predicate AllSafe(s: string)
  {
    forall k :: 0 <= k < |s| ==> IsSafe(s[k])
  }

  lemma SafeConcat(a: string, b: string)
    requires AllSafe(a) && AllSafe(b)
    ensures AllSafe(a + b)
  {
    forall k | 0 <= k < |a + b| ensures IsSafe((a + b)[k]) {
      if k >= |a| {
        assert (a + b)[k] == b[k - |a|];
      }
    }
  }

  /** What the replacement makes of one character: a safe character stays, any other
      becomes `_` once per UTF-16 code unit, so a character outside the Basic Multilingual
      Plane (a surrogate pair) becomes `__`. */
  function SafeOf(c: char): (r: string)
    ensures AllSafe(r) && |r| == Utf16Length([c])
    ensures IsSafe(c) <==> r == [c]
  {
    if IsSafe(c) then [c] else if IsAstral(c) then "__" else "_"
  }

  /** `.replace(/[^a-zA-Z0-9-_]/g, '_')`: the JavaScript length is kept, only safe characters
      remain, and text that is safe already is left as it is. */
  function ReplaceUnsafe(t: string): (r: string)
    ensures |r| == Utf16Length(t)
    ensures AllSafe(r)
    ensures AllSafe(t) ==> r == t
  {
    if t == [] then []
    else
      var head, rest := SafeOf(t[0]), ReplaceUnsafe(t[1..]);
      SafeConcat(head, rest);
      Utf16LengthAppend([t[0]], t[1..]);
      assert [t[0]] + t[1..] == t;
      assert AllSafe(t) ==> AllSafe(t[1..]) && IsSafe(t[0]) by {
        if AllSafe(t) {
          forall k | 0 <= k < |t[1..]| ensures IsSafe(t[1..][k]) {
            assert t[1..][k] == t[k + 1];
          }
        }
      }
      head + rest
  }

  /** The replacement works character by character. */
  lemma {:induction false} ReplaceUnsafeAppend(a: string, b: string)
    ensures ReplaceUnsafe(a + b) == ReplaceUnsafe(a) + ReplaceUnsafe(b)
  {
    if a != [] {
      assert (a + b)[1..] == a[1..] + b;
      assert (a + b)[0] == a[0];
      ReplaceUnsafeAppend(a[1..], b);
    } else {
      assert a + b == b;
    }
  }

  /** `str.trim().replace(/[^a-zA-Z0-9-_]/g, '_')`. */
  function Sanitize(s: string): (r: string)
    ensures |r| == Utf16Length(Trim(s))
    ensures AllSafe(r)
    ensures AllSafe(Trim(s)) ==> r == Trim(s)
  {
    ReplaceUnsafe(Trim(s))
  }

  /** A sanitized name is sanitized already. */
  lemma SanitizeTwice(s: string)
    ensures Sanitize(Sanitize(s)) == Sanitize(s)
  {
    var r := Sanitize(s);
    if r != [] {
      assert !IsSpace(r[0]) && !IsSpace(r[|r| - 1]);
    }
    TrimTrimmed(r);
  }

  /** The major code for the file name, `UnknownCode` when there is none. */
  function MajorCodeOf(st: AppState): (r: string)
    ensures r != ""
    ensures st.Moet().majorCode != "" ==> r == st.Moet().majorCode
    ensures st.Moet().majorCode == "" ==> r == "UnknownCode"
  {
    if st.Moet().majorCode != "" then st.Moet().majorCode else "UnknownCode"
  }

  /** The specialization for the file name: the English name, else the name in the current
      language, else `General`. */
  function SpecializationOf(st: AppState): (r: string)
    ensures r != ""
    ensures r == st.Moet().specializationName.en || r == st.Moet().specializationName.Get(st.language) || r == "General"
    ensures st.Moet().specializationName.en != "" ==> r == st.Moet().specializationName.en
    ensures st.Moet().specializationName.en == "" && st.Moet().specializationName.Get(st.language) != ""
      ==> r == st.Moet().specializationName.Get(st.language)
    ensures st.Moet().specializationName.en == "" && st.Moet().specializationName.Get(st.language) == ""
      ==> r == "General"
  {
    var name := st.Moet().specializationName;
    if name.en != "" then name.en
    else if name.Get(st.language) != "" then name.Get(st.language)
    else "General"
  }

  /** `PROG_Data_<code>_<spec>_<date>.json`; `date` is the day of the export. */
  function FileName(st: AppState, date: string): (r: string)
  {
    "PROG_Data_" + Sanitize(MajorCodeOf(st)) + "_" + Sanitize(SpecializationOf(st)) + "_" + date + ".json"
  }

  /** The file name ends with the date and `.json`, and everything before the date is made of
      safe characters only. */
  lemma FileNameSafe(st: AppState, date: string)
    ensures var r := FileName(st, date);
      |r| >= |date| + 5 &&
      r[|r| - |date| - 5..] == date + ".json" &&
      forall k :: 0 <= k < |r| - |date| - 5 ==> IsSafe(r[k])
  {
    NameSafe(Sanitize(MajorCodeOf(st)), Sanitize(SpecializationOf(st)), date);
  }

  /** The file name shape, for any two safe parts. */
  lemma NameSafe(a: string, b: string, date: string)
    requires AllSafe(a) && AllSafe(b)
    ensures var r := "PROG_Data_" + a + "_" + b + "_" + date + ".json";
      |r| >= |date| + 5 &&
      r[|r| - |date| - 5..] == date + ".json" &&
      forall k :: 0 <= k < |r| - |date| - 5 ==> IsSafe(r[k])
  {
    SafeConcat("PROG_Data_", a);
    SafeConcat("PROG_Data_" + a, "_");
    SafeConcat("PROG_Data_" + a + "_", b);
    SafeConcat("PROG_Data_" + a + "_" + b, "_");
    var head := "PROG_Data_" + a + "_" + b + "_";
    var r := "PROG_Data_" + a + "_" + b + "_" + date + ".json";
    assert r == head + (date + ".json");
    assert forall k :: 0 <= k < |head| ==> r[k] == head[k];
  }

  // ---------------------------------------------------------------------------------------
  // Import

  /** `handleImport`: a file that does not parse (`parsed` is `None`), or a restore that is not
      confirmed, changes nothing. Otherwise the document is the file's, except that whoever is
      signed in stays signed in (the file's user is taken only when nobody is) and the API key
      stays the current one. */
  function ImportState(prev: AppState, parsed: Option<AppState>, confirmed: bool): (r: AppState)
    ensures parsed.None? || !confirmed ==> r == prev
    ensures r.geminiConfig.apiKey == prev.geminiConfig.apiKey
    ensures prev.currentUser.Some? ==> r.currentUser == prev.currentUser
    ensures parsed.Some? && confirmed ==>
      r.(currentUser := parsed.value.currentUser, geminiConfig := parsed.value.geminiConfig) == parsed.value &&
      r.geminiConfig == parsed.value.geminiConfig.(apiKey := prev.geminiConfig.apiKey) &&
      (prev.currentUser.None? ==> r.currentUser == parsed.value.currentUser)
  {
    if parsed.None? || !confirmed then prev
    else
      var file := parsed.value;
      file.(currentUser := if prev.currentUser.Some? then prev.currentUser else file.currentUser,
            geminiConfig := file.geminiConfig.(apiKey := prev.geminiConfig.apiKey))
  }

  /** Restoring the file just exported gives the document back, except for the built-in
      administrator account, which the export left out. */
  lemma ExportThenImport(st: AppState)
    ensures ImportState(st, Some(ExportSnapshot(st)), true) == st.(users := Filter(st.users, NotBuiltIn))
  {
  }

  // ---------------------------------------------------------------------------------------
  // Sign-in

  /** The login screen is shown instead of the editor. */
  predicate ShowsLogin(st: AppState)
  {
    st.authEnabled && st.currentUser.None?
  }

  /** `handleLogin`: the first user account signs in (none when there are no accounts). */
  function Login(st: AppState): (r: AppState)
    ensures r == st.(currentUser := r.currentUser)
    ensures st.users != [] ==> r.currentUser == Some(st.users[0])
  {
    st.(currentUser := if st.users != [] then Some(st.users[0]) else None)
  }

  /** `handleLogout`. */
  function Logout(st: AppState): AppState
  {
    st.(currentUser := None)
  }

  /** Signing in leaves the login screen exactly when there is an account to sign in with,
      signing out shows it exactly when sign-in is enabled, and restoring a file never
      signs the current user out. */
  lemma SignInGuard(st: AppState, parsed: Option<AppState>, confirmed: bool)
    ensures ShowsLogin(Login(st)) <==> st.authEnabled && st.users == []
    ensures ShowsLogin(Logout(st)) <==> st.authEnabled
    ensures st.currentUser.Some? ==> ImportState(st, parsed, confirmed).currentUser.Some?
  {
  }
}
