/**
 * Character and string primitives of the JavaScript runtime that the editor relies on:
 * the `\s` / `trim()` whitespace set, `toLowerCase` / `toUpperCase`, `normalize("NFD")`
 * followed by removal of combining marks, `split`, `join`, `includes` and `startsWith`,
 * and the text normaliser used for all fuzzy comparisons.
 */
module Text {

  import opened Wrappers

  /** ECMAScript WhiteSpace and LineTerminator code points: the set matched by `\s`
      and removed by `String.prototype.trim`. */
  predicate IsSpace(c: char)
  {
    var k := c as int;
    (0x09 <= k <= 0x0D) || k == 0x20 || k == 0xA0 || k == 0x1680 || (0x2000 <= k <= 0x200A)
    || k == 0x2028 || k == 0x2029 || k == 0x202F || k == 0x205F || k == 0x3000 || k == 0xFEFF
  }

  predicate IsAsciiLower(c: char) { 'a' <= c <= 'z' }
  predicate IsAsciiUpper(c: char) { 'A' <= c <= 'Z' }
  predicate IsDigit(c: char) { '0' <= c <= '9' }

  /** Combining diacritical marks, U+0300..U+036F: the range the normaliser deletes. */
  predicate IsCombiningMark(c: char) { 0x300 <= c as int <= 0x36F }

  /** `toLowerCase` on one character, for ASCII, Latin-1 and the Vietnamese letters. */
  function LowerChar(c: char): (r: char)
    ensures IsAsciiUpper(c) ==> IsAsciiLower(r)
    ensures !IsAsciiUpper(c) ==> (IsAsciiLower(r) <==> IsAsciiLower(c))
    ensures IsDigit(c) || IsSpace(c) || IsAsciiLower(c) ==> r == c
  {
    var k := c as int;
    if IsAsciiUpper(c) then (k + 32) as char
    else if 0xC0 <= k <= 0xDE && k != 0xD7 then (k + 32) as char
    else if k == 0x102 || k == 0x110 || k == 0x128 || k == 0x168 || k == 0x1A0 || k == 0x1AF then (k + 1) as char
    else if 0x1EA0 <= k <= 0x1EF8 && k % 2 == 0 then (k + 1) as char
    else c
  }

  /** The simple (one character to one character) `toUpperCase` mapping, for ASCII, Latin-1
      and the Vietnamese letters; `ß` and the micro sign are handled by UpperOf. */
  function UpperChar(c: char): (r: char)
    ensures IsAsciiLower(c) ==> IsAsciiUpper(r)
    ensures !IsAsciiLower(c) ==> (IsAsciiUpper(r) <==> IsAsciiUpper(c))
    ensures IsDigit(c) || IsSpace(c) || IsAsciiUpper(c) ==> r == c
  {
    var k := c as int;
    if IsAsciiLower(c) then (k - 32) as char
    else if 0xE0 <= k <= 0xFE && k != 0xF7 then (k - 32) as char
    else if k == 0xFF then 0x178 as char
    else if k == 0x103 || k == 0x111 || k == 0x129 || k == 0x169 || k == 0x1A1 || k == 0x1B0 then (k - 1) as char
    else if 0x1EA1 <= k <= 0x1EF9 && k % 2 == 1 then (k - 1) as char
    else c
  }

  function Lower(s: string): (r: string)
    ensures |r| == |s| && forall i :: 0 <= i < |s| ==> r[i] == LowerChar(s[i])
  {
    seq(|s|, i requires 0 <= i < |s| => LowerChar(s[i]))
  }

  /** `toUpperCase` of one character as a string: the full case mapping turns `ß` into
      `SS` and the micro sign into the Greek capital mu; every other character is mapped by
      UpperChar. */
  function UpperOf(c: char): (r: string)
    ensures 1 <= |r| <= 2 && (|r| == 2 <==> c == '\U{DF}')
    ensures forall k :: 0 <= k < |r| ==> !IsAsciiLower(r[k])
    ensures IsAsciiUpper(r[0]) <==> IsAsciiLower(c) || IsAsciiUpper(c) || c == '\U{DF}'
    ensures IsDigit(c) || IsSpace(c) || IsAsciiUpper(c) || c == '-' || c == '_' ==> r == [c]
  {
    if c == '\U{DF}' then "SS"
    else if c == '\U{B5}' then ['\U{39C}']
    else [UpperChar(c)]
  }

  /** `String.prototype.toUpperCase`: the characters' mappings, concatenated. */
  function Upper(s: string): (r: string)
    ensures |s| <= |r| <= 2 * |s|
    ensures forall k :: 0 <= k < |r| ==> !IsAsciiLower(r[k])
  {
    if s == [] then [] else UpperOf(s[0]) + Upper(s[1..])
  }

  /** Upper-casing works character by character, so it distributes over concatenation. */
  lemma {:induction false} UpperAppend(a: string, b: string)
    ensures Upper(a + b) == Upper(a) + Upper(b)
  {
    if a != [] {
      assert (a + b)[1..] == a[1..] + b;
      assert (a + b)[0] == a[0];
      UpperAppend(a[1..], b);
    } else {
      assert a + b == b;
    }
  }

  /** Capital letters, digits, whitespace, `-` and `_` are their own upper case. */
  lemma {:induction false} UpperKeeps(s: string)
    requires forall k :: 0 <= k < |s| ==>
      IsAsciiUpper(s[k]) || IsDigit(s[k]) || IsSpace(s[k]) || s[k] == '-' || s[k] == '_'
    ensures Upper(s) == s
  {
    if s != [] {
      UpperKeeps(s[1..]);
    }
  }

  /** A character outside the Basic Multilingual Plane, which JavaScript stores as a
      surrogate pair of two UTF-16 code units. */
  predicate IsAstral(c: char) { c as int > 0xFFFF }

  /** JavaScript's `length` of a string: its number of UTF-16 code units. */
  function Utf16Length(s: string): (n: nat)
    ensures |s| <= n <= 2 * |s|
  {
    if s == [] then 0 else (if IsAstral(s[0]) then 2 else 1) + Utf16Length(s[1..])
  }

  /** The JavaScript length is the number of characters exactly when no character lies
      outside the Basic Multilingual Plane. */
  lemma {:induction false} Utf16LengthBmp(s: string)
    ensures Utf16Length(s) == |s| <==> forall k :: 0 <= k < |s| ==> !IsAstral(s[k])
  {
    if s != [] {
      Utf16LengthBmp(s[1..]);
      assert forall k :: 1 <= k < |s| ==> s[k] == s[1..][k - 1];
    }
  }

  lemma {:induction false} Utf16LengthAppend(a: string, b: string)
    ensures Utf16Length(a + b) == Utf16Length(a) + Utf16Length(b)
  {
    if a != [] {
      assert (a + b)[1..] == a[1..] + b;
      assert (a + b)[0] == a[0];
      Utf16LengthAppend(a[1..], b);
    } else {
      assert a + b == b;
    }
  }

  /** Letter case helper for the base letters below: keeps the case of the original letter. */
  function CaseLike(upper: bool, lower: char): char
    requires IsAsciiLower(lower)
  {
    if upper then (lower as int - 32) as char else lower
  }

  /** The base letter that canonical decomposition (NFD) puts in front of the combining
      marks of a precomposed Latin letter, when the letter has one. */
  function BaseLetter(c: char): (r: Option<char>)
    ensures r.Some? ==> IsAsciiLower(r.value) || IsAsciiUpper(r.value)
    ensures r.Some? ==> !IsAsciiLower(c) && !IsAsciiUpper(c) && !IsCombiningMark(c)
  {
    var k := c as int;
    if 0xC0 <= k <= 0xC5 || 0xE0 <= k <= 0xE5 then Some(CaseLike(k < 0xE0, 'a'))
    else if k == 0xC7 || k == 0xE7 then Some(CaseLike(k < 0xE0, 'c'))
    else if 0xC8 <= k <= 0xCB || 0xE8 <= k <= 0xEB then Some(CaseLike(k < 0xE0, 'e'))
    else if 0xCC <= k <= 0xCF || 0xEC <= k <= 0xEF then Some(CaseLike(k < 0xE0, 'i'))
    else if k == 0xD1 || k == 0xF1 then Some(CaseLike(k < 0xE0, 'n'))
    else if 0xD2 <= k <= 0xD6 || 0xF2 <= k <= 0xF6 then Some(CaseLike(k < 0xE0, 'o'))
    else if 0xD9 <= k <= 0xDC || 0xF9 <= k <= 0xFC then Some(CaseLike(k < 0xE0, 'u'))
    else if k == 0xDD || k == 0xFD || k == 0xFF then Some(CaseLike(k == 0xDD, 'y'))
    else if k == 0x102 || k == 0x103 then Some(CaseLike(k == 0x102, 'a'))
    else if k == 0x128 || k == 0x129 then Some(CaseLike(k == 0x128, 'i'))
    else if k == 0x168 || k == 0x169 then Some(CaseLike(k == 0x168, 'u'))
    else if k == 0x1A0 || k == 0x1A1 then Some(CaseLike(k == 0x1A0, 'o'))
    else if k == 0x1AF || k == 0x1B0 then Some(CaseLike(k == 0x1AF, 'u'))
    else if 0x1EA0 <= k <= 0x1EF9 then
      var upper := k % 2 == 0;
      if k <= 0x1EB7 then Some(CaseLike(upper, 'a'))
      else if k <= 0x1EC7 then Some(CaseLike(upper, 'e'))
      else if k <= 0x1ECB then Some(CaseLike(upper, 'i'))
      else if k <= 0x1EE3 then Some(CaseLike(upper, 'o'))
      else if k <= 0x1EF1 then Some(CaseLike(upper, 'u'))
      else Some(CaseLike(upper, 'y'))
    else None
  }

  /** One character after `normalize("NFD")` and removal of U+0300..U+036F: a combining
      mark disappears, a precomposed letter becomes its base letter, anything else stays. */
  function FoldChar(c: char): (r: string)
    ensures |r| <= 1
    ensures (IsAsciiLower(c) || IsAsciiUpper(c) || IsDigit(c) || IsSpace(c)) ==> r == [c]
  {
    if IsCombiningMark(c) then []
    else match BaseLetter(c)
      case Some(b) => [b]
      case None => [c]
  }

  /** `s.normalize("NFD")` followed by deleting every combining mark U+0300..U+036F. */
  function StripDiacritics(s: string): (r: string)
    ensures |r| <= |s|
  {
    if s == [] then [] else FoldChar(s[0]) + StripDiacritics(s[1..])
  }

  /** Text made of `[a-z0-9]` and whitespace has no diacritics to strip. */
  lemma {:induction false} StripDiacriticsPlain(s: string)
    requires forall i :: 0 <= i < |s| ==> IsNormalChar(s[i])
    ensures StripDiacritics(s) == s
  {
    if s != [] {
      StripDiacriticsPlain(s[1..]);
    }
  }

  /** Characters kept by the normaliser's `[^a-z0-9\s]` filter. */
  predicate IsNormalChar(c: char) { IsAsciiLower(c) || IsDigit(c) || IsSpace(c) }

  function KeepNormalChars(s: string): (r: string)
    ensures |r| <= |s|
  {
    if s == [] then []
    else (if IsNormalChar(s[0]) then [s[0]] else []) + KeepNormalChars(s[1..])
  }

  /** Only `[a-z0-9]` and whitespace survive the filter. */
  lemma {:induction false} KeepNormalCharsShape(s: string)
    ensures forall i :: 0 <= i < |KeepNormalChars(s)| ==> IsNormalChar(KeepNormalChars(s)[i])
  {
    if s != [] {
      KeepNormalCharsShape(s[1..]);
      var head: string := if IsNormalChar(s[0]) then [s[0]] else [];
      var r := KeepNormalChars(s);
      assert r == head + KeepNormalChars(s[1..]);
      forall i | 0 <= i < |r|
        ensures IsNormalChar(r[i])
      {
        if i >= |head| {
          assert r[i] == KeepNormalChars(s[1..])[i - |head|];
        }
      }
    }
  }

  /** The filter keeps text that already passes it. */
  lemma {:induction false} KeepNormalCharsPlain(s: string)
    requires forall i :: 0 <= i < |s| ==> IsNormalChar(s[i])
    ensures KeepNormalChars(s) == s
  {
    if s != [] {
      KeepNormalCharsPlain(s[1..]);
    }
  }

  /** Index of the first non-whitespace character, or `|s|` when there is none. */
  function StartIdx(s: string): (i: nat)
    ensures i <= |s|
  {
    if s == [] then 0
    else if IsSpace(s[0]) then 1 + StartIdx(s[1..])
    else 0
  }

  lemma {:induction false} StartIdxSpec(s: string)
    ensures forall k :: 0 <= k < StartIdx(s) ==> IsSpace(s[k])
    ensures StartIdx(s) < |s| ==> !IsSpace(s[StartIdx(s)])
  {
    if s != [] && IsSpace(s[0]) {
      StartIdxSpec(s[1..]);
      forall k | 0 <= k < StartIdx(s)
        ensures IsSpace(s[k])
      {
        if k > 0 {
          assert s[k] == s[1..][k - 1];
        }
      }
    }
  }

  /** One past the last non-whitespace character, or 0 when there is none. */
  function EndIdx(s: string): (j: nat)
    ensures j <= |s|
  {
    if s == [] then 0
    else if IsSpace(s[|s| - 1]) then EndIdx(s[..|s| - 1])
    else |s|
  }

  lemma {:induction false} EndIdxSpec(s: string)
    ensures forall k :: EndIdx(s) <= k < |s| ==> IsSpace(s[k])
    ensures EndIdx(s) > 0 ==> !IsSpace(s[EndIdx(s) - 1])
  {
    if s != [] && IsSpace(s[|s| - 1]) {
      EndIdxSpec(s[..|s| - 1]);
    }
  }

  /** Leading whitespace removed (`trimStart`, and the first step of `parseInt`). */
  function TrimStart(s: string): (r: string)
    ensures r == [] || !IsSpace(r[0])
  {
    StartIdxSpec(s);
    s[StartIdx(s)..]
  }

  /** A string that does not start with whitespace is left alone by `trimStart`. */
  lemma TrimStartNoSpace(s: string)
    requires s != [] && !IsSpace(s[0])
    ensures TrimStart(s) == s
  {
    assert s[0..] == s;
  }

  /** `String.prototype.trim`. */
  function Trim(s: string): (r: string)
    ensures |r| <= |s|
  {
    var i := StartIdx(s);
    var j := EndIdx(s);
    if i < j then s[i..j] else []
  }

  /** The trimmed string neither starts nor ends with whitespace, and it is what lies
      between the leading and the trailing whitespace. */
  lemma TrimShape(s: string)
    ensures Trim(s) == [] || (!IsSpace(Trim(s)[0]) && !IsSpace(Trim(s)[|Trim(s)| - 1]))
    ensures Trim(s) == [] <==> forall k :: 0 <= k < |s| ==> IsSpace(s[k])
  {
    StartIdxSpec(s);
    EndIdxSpec(s);
    var i, j := StartIdx(s), EndIdx(s);
    if i < j {
      assert !IsSpace(s[i]);
    }
  }

  /** A string without leading or trailing whitespace is its own trim. */
  lemma TrimTrimmed(s: string)
    requires s == [] || (!IsSpace(s[0]) && !IsSpace(s[|s| - 1]))
    ensures Trim(s) == s
  {
    if s != [] {
      assert StartIdx(s) == 0;
      assert EndIdx(s) == |s|;
    }
  }

  /** Every character of `Trim(s)` is a character of `s`. */
  lemma TrimChars(s: string, p: char -> bool)
    requires forall k :: 0 <= k < |s| ==> p(s[k])
    ensures forall k :: 0 <= k < |Trim(s)| ==> p(Trim(s)[k])
  {
    var i := StartIdx(s);
    var j := EndIdx(s);
    if i < j {
      forall k | 0 <= k < |Trim(s)| ensures p(Trim(s)[k]) {
        assert Trim(s)[k] == s[i + k];
      }
    }
  }

  /** The text normaliser: lower-case, strip diacritics, keep `[a-z0-9\s]`, trim. */
  function NormalizeStr(s: string): (r: string)
  {
    Trim(KeepNormalChars(StripDiacritics(Lower(s))))
  }

  /** A normalised string holds only `[a-z0-9]` and whitespace, and has no surrounding
      whitespace. */
  lemma NormalizeStrShape(s: string)
    ensures forall i :: 0 <= i < |NormalizeStr(s)| ==> IsNormalChar(NormalizeStr(s)[i])
    ensures NormalizeStr(s) == [] || (!IsSpace(NormalizeStr(s)[0]) && !IsSpace(NormalizeStr(s)[|NormalizeStr(s)| - 1]))
  {
    KeepNormalCharsShape(StripDiacritics(Lower(s)));
    TrimChars(KeepNormalChars(StripDiacritics(Lower(s))), IsNormalChar);
    TrimShape(KeepNormalChars(StripDiacritics(Lower(s))));
  }

  /** Normalising twice is the same as normalising once. */
  lemma NormalizeStrIdempotent(s: string)
    ensures NormalizeStr(NormalizeStr(s)) == NormalizeStr(s)
  {
    var t := NormalizeStr(s);
    NormalizeStrShape(s);
    assert Lower(t) == t;
    StripDiacriticsPlain(t);
    KeepNormalCharsPlain(t);
    TrimTrimmed(t);
  }

  /** `s.split(sep)`: the pieces between occurrences of `sep`; always at least one piece. */
  function SplitOn(s: string, sep: char): (r: seq<string>)
    ensures |r| >= 1
    ensures forall p :: p in r ==> sep !in p
  {
    if s == [] then [[]]
    else
      var rest := SplitOn(s[1..], sep);
      if s[0] == sep then [[]] + rest
      else [[s[0]] + rest[0]] + rest[1..]
  }

  /** `parts.join(sep)`. */
  function JoinWith(parts: seq<string>, sep: string): string
  {
    if parts == [] then []
    else if |parts| == 1 then parts[0]
    else parts[0] + sep + JoinWith(parts[1..], sep)
  }

  lemma {:induction false} SplitPieceThenSep(p: string, sep: char, rest: string)
    requires sep !in p
    ensures SplitOn(p + [sep] + rest, sep) == [p] + SplitOn(rest, sep)
    decreases |p|
  {
    if p == [] {
      assert p + [sep] + rest == [sep] + rest;
      assert ([sep] + rest)[1..] == rest;
    } else {
      assert (p + [sep] + rest)[1..] == p[1..] + [sep] + rest;
      SplitPieceThenSep(p[1..], sep, rest);
      assert [p[0]] + p[1..] == p;
    }
  }

  lemma {:induction false} SplitPiece(p: string, sep: char)
    requires sep !in p
    ensures SplitOn(p, sep) == [p]
    decreases |p|
  {
    if p != [] {
      SplitPiece(p[1..], sep);
      assert [p[0]] + p[1..] == p;
    }
  }

  /** Splitting a join recovers the pieces when no piece contains the separator. */
  lemma {:induction false} SplitJoin(parts: seq<string>, sep: char)
    requires |parts| >= 1
    requires forall p :: p in parts ==> sep !in p
    ensures SplitOn(JoinWith(parts, [sep]), sep) == parts
    decreases |parts|
  {
    if |parts| == 1 {
      SplitPiece(parts[0], sep);
    } else {
      SplitJoin(parts[1..], sep);
      SplitPieceThenSep(parts[0], sep, JoinWith(parts[1..], [sep]));
      assert [parts[0]] + parts[1..] == parts;
    }
  }

  /** `s.startsWith(p)`. */
  predicate StartsWith(s: string, p: string)
  {
    |p| <= |s| && s[..|p|] == p
  }

  /** `s.includes(sub)`. */
  predicate Includes(s: string, sub: string)
  {
    exists i | 0 <= i <= |s| - |sub| :: OccursAt(s, sub, i)
  }

  predicate OccursAt(s: string, sub: string, i: nat)
  {
    i + |sub| <= |s| && s[i..i + |sub|] == sub
  }
}
