/** String primitives of the two host languages that the terminal framework
    leans on: whitespace classes, `str.split()` / `trim().split(/\s+/)`,
    `strip`, `splitlines`, Python's `int()` / `float()` literal grammar and
    decimal rendering. */
module Text {

  /** Python's `str.isspace` (used by `split()` and `strip()`) and the
      ECMAScript WhiteSpace + LineTerminator class (used by `trim()` and the
      regular-expression escape `\s`) agree on most characters but not all. */
  datatype Dialect = Python | JavaScript

  predicate IsSpace(d: Dialect, c: char) {
    || c == ' ' || c == '\t' || c == '\n' || c == '\U{0b}' || c == '\U{0c}' || c == '\r'
    || c == '\U{a0}' || c == '\U{1680}' || ('\U{2000}' <= c <= '\U{200a}')
    || c == '\U{2028}' || c == '\U{2029}' || c == '\U{202f}' || c == '\U{205f}' || c == '\U{3000}'
    || (d == Python && (('\U{1c}' <= c <= '\U{1f}') || c == '\U{85}'))
    || (d == JavaScript && c == '\U{feff}')
  }

  /** The classes differ: information separators and NEL are Python-only
      whitespace, the byte-order mark is JavaScript-only whitespace. */
  lemma WhitespaceClassesDiffer()
    ensures IsSpace(Python, '\U{1c}') && !IsSpace(JavaScript, '\U{1c}')
    ensures IsSpace(Python, '\U{85}') && !IsSpace(JavaScript, '\U{85}')
    ensures !IsSpace(Python, '\U{feff}') && IsSpace(JavaScript, '\U{feff}')
  {}

  predicate NoSpace(d: Dialect, s: string) {
    forall i :: 0 <= i < |s| ==> !IsSpace(d, s[i])
  }

  predicate IsBlank(d: Dialect, s: string) {
    forall i :: 0 <= i < |s| ==> IsSpace(d, s[i])
  }

  /** Length of the longest whitespace-free prefix. */
  function TokenLen(d: Dialect, s: string): (n: nat)
    ensures n <= |s|
    ensures forall i :: 0 <= i < n ==> !IsSpace(d, s[i])
    ensures n < |s| ==> IsSpace(d, s[n])
  {
    if s == [] || IsSpace(d, s[0]) then 0 else 1 + TokenLen(d, s[1..])
  }

  /** The maximal whitespace-free runs of `s`, left to right: Python's
      `s.split()` with no separator argument. */
  function Words(d: Dialect, s: string): (ws: seq<string>)
    ensures forall i :: 0 <= i < |ws| ==> ws[i] != [] && NoSpace(d, ws[i])
    decreases |s|
  {
    if s == [] then []
    else if IsSpace(d, s[0]) then Words(d, s[1..])
    else
      var n := TokenLen(d, s);
      [s[..n]] + Words(d, s[n..])
  }

  /** `sep.join(parts)` in Python, `parts.join(sep)` in JavaScript. */
  function JoinWith(parts: seq<string>, sep: string): (r: string)
    ensures |parts| == 1 ==> r == parts[0]
  {
    if parts == [] then ""
    else if |parts| == 1 then parts[0]
    else parts[0] + sep + JoinWith(parts[1..], sep)
  }

  /** Where part `i` starts when `parts` are laid end to end with `sep`
      between neighbours. */
  function Offset(parts: seq<string>, sep: string, i: nat): nat
    requires i <= |parts|
  {
    if i == 0 then 0 else Offset(parts, sep, i - 1) + |parts[i - 1]| + |sep|
  }

  /** `s` holds `parts` end to end with `sep` between neighbours: part `i`
      sits at `Offset(parts, sep, i)`, a separator ends just where each
      later part starts, and nothing follows the last part. No parts lay
      out as "". */
  predicate Laid(s: string, parts: seq<string>, sep: string) {
    if parts == [] then s == []
    else LaidLength(s, parts, sep) && PartsAt(s, parts, sep) && SepsAt(s, parts, sep)
  }

  predicate LaidLength(s: string, parts: seq<string>, sep: string)
    requires parts != []
  {
    |s| == Offset(parts, sep, |parts| - 1) + |parts[|parts| - 1]|
  }

  predicate PartsAt(s: string, parts: seq<string>, sep: string) {
    forall i :: 0 <= i < |parts| ==> PartAt(s, parts, sep, i)
  }

  /** Part `i` sits at its offset in `s`. */
  predicate PartAt(s: string, parts: seq<string>, sep: string, i: nat)
    requires i < |parts|
  {
    Offset(parts, sep, i) + |parts[i]| <= |s|
    && s[Offset(parts, sep, i)..Offset(parts, sep, i) + |parts[i]|] == parts[i]
  }

  predicate SepsAt(s: string, parts: seq<string>, sep: string) {
    forall i :: 1 <= i < |parts| ==>
      Offset(parts, sep, i) <= |s| && s[Offset(parts, sep, i) - |sep|..Offset(parts, sep, i)] == sep
  }

  /** Dropping the first part moves every later part back by that part and
      one separator. */
  lemma {:induction false} OffsetTail(parts: seq<string>, sep: string, i: nat)
    requires 1 <= i <= |parts|
    ensures Offset(parts, sep, i) == |parts[0]| + |sep| + Offset(parts[1..], sep, i - 1)
    decreases i
  {
    if i > 1 {
      OffsetTail(parts, sep, i - 1);
      assert parts[1..][i - 2] == parts[i - 1];
    }
  }

  lemma SliceShift(s: string, k: nat, a: nat, b: nat)
    requires a <= b && k + b <= |s|
    ensures s[k..][a..b] == s[k + a..k + b]
  {
    assert forall m :: 0 <= m < b - a ==> s[k..][a..b][m] == s[k + a..k + b][m];
  }

  lemma LengthStep(s: string, parts: seq<string>, sep: string)
    requires |parts| >= 2 && |parts[0]| + |sep| <= |s|
    ensures LaidLength(s, parts, sep) <==> LaidLength(s[|parts[0]| + |sep|..], parts[1..], sep)
  {
    OffsetTail(parts, sep, |parts| - 1);
    assert parts[|parts| - 1] == parts[1..][|parts| - 2];
  }

  /** Part `i + 1` at its place in `s` is part `i` of the tail at its place
      in what follows the first part and separator; both directions. */
  lemma PartShift(s: string, parts: seq<string>, sep: string, i: nat)
    requires |parts| >= 2 && |parts[0]| + |sep| <= |s| && i < |parts| - 1
    ensures PartAt(s, parts, sep, i + 1) <==> PartAt(s[|parts[0]| + |sep|..], parts[1..], sep, i)
  {
    var k := |parts[0]| + |sep|;
    var rest := parts[1..];
    OffsetTail(parts, sep, i + 1);
    assert rest[i] == parts[i + 1];
    if Offset(rest, sep, i) + |rest[i]| <= |s| - k {
      SliceShift(s, k, Offset(rest, sep, i), Offset(rest, sep, i) + |rest[i]|);
    }
  }

  lemma PartsForward(s: string, parts: seq<string>, sep: string)
    requires |parts| >= 2 && |parts[0]| + |sep| <= |s| && PartsAt(s, parts, sep)
    ensures PartsAt(s[|parts[0]| + |sep|..], parts[1..], sep)
  {
    var t, rest := s[|parts[0]| + |sep|..], parts[1..];
    forall i | 0 <= i < |rest|
      ensures PartAt(t, rest, sep, i)
    {
      assert PartAt(s, parts, sep, i + 1);
      PartShift(s, parts, sep, i);
    }
  }

  lemma PartsBack(s: string, parts: seq<string>, sep: string)
    requires |parts| >= 2 && |parts[0]| + |sep| <= |s| && s[..|parts[0]|] == parts[0]
    requires PartsAt(s[|parts[0]| + |sep|..], parts[1..], sep)
    ensures PartsAt(s, parts, sep)
  {
    forall i | 0 <= i < |parts|
      ensures PartAt(s, parts, sep, i)
    {
      if i == 0 {
        assert s[0..|parts[0]|] == s[..|parts[0]|];
      } else {
        assert PartAt(s[|parts[0]| + |sep|..], parts[1..], sep, i - 1);
        PartShift(s, parts, sep, i - 1);
      }
    }
  }

  lemma SepsForward(s: string, parts: seq<string>, sep: string)
    requires |parts| >= 2 && |parts[0]| + |sep| <= |s| && SepsAt(s, parts, sep)
    ensures SepsAt(s[|parts[0]| + |sep|..], parts[1..], sep)
  {
    var k := |parts[0]| + |sep|;
    var t, rest := s[k..], parts[1..];
    forall i | 1 <= i < |rest|
      ensures Offset(rest, sep, i) <= |t| && t[Offset(rest, sep, i) - |sep|..Offset(rest, sep, i)] == sep
    {
      OffsetTail(parts, sep, i + 1);
      assert Offset(parts, sep, i + 1) <= |s|;
      SliceShift(s, k, Offset(rest, sep, i) - |sep|, Offset(rest, sep, i));
    }
  }

  lemma SepsBack(s: string, parts: seq<string>, sep: string)
    requires |parts| >= 2 && |parts[0]| + |sep| <= |s| && s[|parts[0]|..|parts[0]| + |sep|] == sep
    requires SepsAt(s[|parts[0]| + |sep|..], parts[1..], sep)
    ensures SepsAt(s, parts, sep)
  {
    var k := |parts[0]| + |sep|;
    var t, rest := s[k..], parts[1..];
    forall i | 1 <= i < |parts|
      ensures Offset(parts, sep, i) <= |s| && s[Offset(parts, sep, i) - |sep|..Offset(parts, sep, i)] == sep
    {
      OffsetTail(parts, sep, i);
      if i > 1 {
        assert Offset(rest, sep, i - 1) <= |t|;
        SliceShift(s, k, Offset(rest, sep, i - 1) - |sep|, Offset(rest, sep, i - 1));
      }
    }
  }

  /** A layout of two or more parts starts with the first part and a
      separator. */
  lemma LaidHead(s: string, parts: seq<string>, sep: string)
    requires |parts| >= 2 && Laid(s, parts, sep)
    ensures |parts[0]| + |sep| <= |s|
    ensures s[..|parts[0]|] == parts[0] && s[|parts[0]|..|parts[0]| + |sep|] == sep
  {
    assert Offset(parts, sep, 0) == 0 && Offset(parts, sep, 1) == |parts[0]| + |sep|;
    assert PartAt(s, parts, sep, 0);
    assert s[0..|parts[0]|] == parts[0];
    assert s[Offset(parts, sep, 1) - |sep|..Offset(parts, sep, 1)] == sep;
  }

  /** A layout of two or more parts is the first part, a separator, and a
      layout of the rest. */
  lemma LaidTail(s: string, parts: seq<string>, sep: string)
    requires |parts| >= 2 && Laid(s, parts, sep)
    ensures |parts[0]| + |sep| <= |s|
    ensures s[..|parts[0]|] == parts[0] && s[|parts[0]|..|parts[0]| + |sep|] == sep
    ensures Laid(s[|parts[0]| + |sep|..], parts[1..], sep)
  {
    LaidHead(s, parts, sep);
    LengthStep(s, parts, sep);
    PartsForward(s, parts, sep);
    SepsForward(s, parts, sep);
  }

  lemma Split3(s: string, a: nat, b: nat)
    requires a <= b <= |s|
    ensures s == s[..a] + s[a..b] + s[b..]
  {
  }

  lemma {:induction false} LaidIsJoin(s: string, parts: seq<string>, sep: string)
    ensures Laid(s, parts, sep) ==> s == JoinWith(parts, sep)
    decreases |parts|
  {
    if !Laid(s, parts, sep) {
    } else if |parts| == 1 {
      assert Offset(parts, sep, 0) == 0;
      assert PartAt(s, parts, sep, 0);
      assert s == s[0..|parts[0]|];
    } else if |parts| >= 2 {
      var k := |parts[0]| + |sep|;
      LaidTail(s, parts, sep);
      LaidIsJoin(s[k..], parts[1..], sep);
      Split3(s, |parts[0]|, k);
    }
  }

  lemma {:induction false} JoinIsLaid(parts: seq<string>, sep: string)
    ensures Laid(JoinWith(parts, sep), parts, sep)
    decreases |parts|
  {
    var s := JoinWith(parts, sep);
    if |parts| == 1 {
      assert Offset(parts, sep, 0) == 0;
      assert s[0..|parts[0]|] == s;
    } else if |parts| >= 2 {
      var k := |parts[0]| + |sep|;
      assert s[..|parts[0]|] == parts[0] && s[|parts[0]|..k] == sep && s[k..] == JoinWith(parts[1..], sep);
      JoinIsLaid(parts[1..], sep);
      LengthStep(s, parts, sep);
      PartsBack(s, parts, sep);
      SepsBack(s, parts, sep);
    }
  }

  /** The join is the one string that lays the parts out with the
      separator between them. */
  lemma JoinWithLaid(s: string, parts: seq<string>, sep: string)
    ensures Laid(s, parts, sep) <==> s == JoinWith(parts, sep)
  {
    LaidIsJoin(s, parts, sep);
    JoinIsLaid(parts, sep);
  }

  lemma {:induction false} TokenLenOfPrefix(d: Dialect, w: string, rest: string)
    requires NoSpace(d, w)
    requires rest == [] || IsSpace(d, rest[0])
    ensures TokenLen(d, w + rest) == |w|
    decreases |w|
  {
    if w == [] {
      assert w + rest == rest;
    } else {
      assert (w + rest)[0] == w[0];
      assert !IsSpace(d, w[0]);
      assert (w + rest)[1..] == w[1..] + rest;
      assert NoSpace(d, w[1..]) by {
        forall i | 0 <= i < |w[1..]| ensures !IsSpace(d, w[1..][i]) {
          assert w[1..][i] == w[i + 1];
        }
      }
      TokenLenOfPrefix(d, w[1..], rest);
    }
  }

  lemma {:induction false} WordsOfBlank(d: Dialect, s: string)
    requires IsBlank(d, s)
    ensures Words(d, s) == []
    decreases |s|
  {
    if s != [] {
      WordsOfBlank(d, s[1..]);
    }
  }

  /** A string has no words exactly when it is all whitespace. */
  lemma {:induction false} WordsEmptyIffBlank(d: Dialect, s: string)
    ensures Words(d, s) == [] <==> IsBlank(d, s)
    decreases |s|
  {
    if s == [] {
    } else if IsSpace(d, s[0]) {
      WordsEmptyIffBlank(d, s[1..]);
      if IsBlank(d, s[1..]) {
        assert IsBlank(d, s) by {
          forall i | 0 <= i < |s| ensures IsSpace(d, s[i]) {
            if i > 0 { assert s[i] == s[1..][i - 1]; }
          }
        }
      }
    } else {
      assert !IsSpace(d, s[0]);
    }
  }

  /** Splitting is the inverse of joining with single spaces: rendering a
      list of non-empty, whitespace-free words and splitting the text again
      gives back the same list. */
  lemma {:induction false} WordsJoinRoundTrip(d: Dialect, ws: seq<string>)
    requires forall i :: 0 <= i < |ws| ==> ws[i] != [] && NoSpace(d, ws[i])
    ensures Words(d, JoinWith(ws, " ")) == ws
  {
    if ws == [] {
    } else if |ws| == 1 {
      assert ws[0] + [] == ws[0];
      TokenLenOfPrefix(d, ws[0], []);
      assert ws[0][0] == ws[0][0];
      assert !IsSpace(d, ws[0][0]);
      assert ws[0][..|ws[0]|] == ws[0];
      assert ws[0][|ws[0]|..] == [];
    } else {
      var rest := JoinWith(ws[1..], " ");
      var s := ws[0] + " " + rest;
      assert JoinWith(ws, " ") == s;
      TokenLenOfPrefix(d, ws[0], " " + rest);
      assert ws[0] + " " + rest == ws[0] + (" " + rest);
      assert s[..|ws[0]|] == ws[0];
      assert s[|ws[0]|..] == " " + rest;
      assert (" " + rest)[1..] == rest;
      WordsJoinRoundTrip(d, ws[1..]);
      assert Words(d, " " + rest) == Words(d, rest);
    }
  }

  function TrimLeft(d: Dialect, s: string): (r: string)
    ensures |r| <= |s|
  {
    if s != [] && IsSpace(d, s[0]) then TrimLeft(d, s[1..]) else s
  }

  /** `TrimLeft` keeps a suffix, which starts with a non-space. */
  lemma {:induction false} TrimLeftSuffix(d: Dialect, s: string)
    ensures TrimLeft(d, s) == s[|s| - |TrimLeft(d, s)|..]
    ensures TrimLeft(d, s) == [] || !IsSpace(d, TrimLeft(d, s)[0])
    decreases |s|
  {
    if s != [] && IsSpace(d, s[0]) {
      TrimLeftSuffix(d, s[1..]);
    }
  }

  /** What `TrimLeft` drops is whitespace. */
  lemma {:induction false} TrimLeftDropsBlank(d: Dialect, s: string)
    ensures IsBlank(d, s[..|s| - |TrimLeft(d, s)|])
    decreases |s|
  {
    if s != [] && IsSpace(d, s[0]) {
      var r := TrimLeft(d, s[1..]);
      TrimLeftDropsBlank(d, s[1..]);
      TrimLeftSuffix(d, s[1..]);
      assert s[..|s| - |r|] == [s[0]] + s[1..][..|s[1..]| - |r|];
    }
  }

  function TrimRight(d: Dialect, s: string): (r: string)
    ensures |r| <= |s|
  {
    if s != [] && IsSpace(d, s[|s| - 1]) then TrimRight(d, s[..|s| - 1]) else s
  }

  /** `TrimRight` keeps a prefix, which ends with a non-space. */
  lemma {:induction false} TrimRightPrefix(d: Dialect, s: string)
    ensures TrimRight(d, s) == s[..|TrimRight(d, s)|]
    ensures TrimRight(d, s) == [] || !IsSpace(d, TrimRight(d, s)[|TrimRight(d, s)| - 1])
    decreases |s|
  {
    if s != [] && IsSpace(d, s[|s| - 1]) {
      TrimRightPrefix(d, s[..|s| - 1]);
    }
  }

  /** What `TrimRight` drops is whitespace. */
  lemma {:induction false} TrimRightDropsBlank(d: Dialect, s: string)
    ensures IsBlank(d, s[|TrimRight(d, s)|..])
    decreases |s|
  {
    if s != [] && IsSpace(d, s[|s| - 1]) {
      var r := TrimRight(d, s[..|s| - 1]);
      TrimRightDropsBlank(d, s[..|s| - 1]);
      TrimRightPrefix(d, s[..|s| - 1]);
      assert s[|r|..] == s[..|s| - 1][|r|..] + [s[|s| - 1]];
    }
  }

  /** Python `strip()` / JavaScript `trim()`. */
  function Trim(d: Dialect, s: string): string {
    TrimRight(d, TrimLeft(d, s))
  }

  /** Trimming yields the empty string exactly on all-whitespace input. */
  lemma TrimEmptyIffBlank(d: Dialect, s: string)
    ensures Trim(d, s) == [] <==> IsBlank(d, s)
  {
    var l := TrimLeft(d, s);
    TrimLeftDropsBlank(d, s);
    TrimRightDropsBlank(d, l);
    TrimLeftSuffix(d, s);
    TrimRightPrefix(d, l);
    if Trim(d, s) == [] {
      assert IsBlank(d, l[0..]);
      assert s == s[..|s| - |l|] + l;
    } else {
      var r := Trim(d, s);
      assert !IsSpace(d, r[0]);
      assert r[0] == l[0];
    }
  }

  /** Trimming twice trims nothing more. */
  lemma TrimIdempotent(d: Dialect, s: string)
    ensures Trim(d, Trim(d, s)) == Trim(d, s)
  {
    var l := TrimLeft(d, s);
    var r := Trim(d, s);
    TrimLeftSuffix(d, s);
    TrimRightPrefix(d, l);
    if r != [] {
      assert r[0] == l[0];
      assert TrimLeft(d, r) == r;
      assert TrimRight(d, r) == r;
    }
  }

  lemma {:induction false} WordsDropLeadingBlank(d: Dialect, b: string, s: string)
    requires IsBlank(d, b)
    ensures Words(d, b + s) == Words(d, s)
    decreases |b|
  {
    if b != [] {
      assert (b + s)[0] == b[0];
      assert IsSpace(d, b[0]);
      assert Words(d, b + s) == Words(d, (b + s)[1..]);
      assert (b + s)[1..] == b[1..] + s;
      assert IsBlank(d, b[1..]) by {
        forall i | 0 <= i < |b[1..]| ensures IsSpace(d, b[1..][i]) {
          assert b[1..][i] == b[i + 1];
        }
      }
      WordsDropLeadingBlank(d, b[1..], s);
    } else {
      assert b + s == s;
    }
  }

  lemma {:induction false} WordsDropTrailingBlank(d: Dialect, s: string, b: string)
    requires IsBlank(d, b)
    ensures Words(d, s + b) == Words(d, s)
    decreases |s|
  {
    if s == [] {
      assert s + b == b;
      WordsOfBlank(d, b);
    } else if IsSpace(d, s[0]) {
      assert (s + b)[1..] == s[1..] + b;
      WordsDropTrailingBlank(d, s[1..], b);
    } else {
      var n := TokenLen(d, s);
      if n < |s| {
        assert s + b == s[..n] + (s[n..] + b);
        TokenLenOfPrefix(d, s[..n], s[n..] + b);
      } else {
        assert s + b == s[..n] + b;
        if b != [] {
          TokenLenOfPrefix(d, s[..n], b);
        } else {
          assert s + b == s;
        }
      }
      assert (s + b)[..n] == s[..n];
      assert (s + b)[n..] == s[n..] + b;
      WordsDropTrailingBlank(d, s[n..], b);
    }
  }

  /** Trimming first does not change the words. */
  lemma WordsOfTrimLeft(d: Dialect, s: string)
    ensures Words(d, TrimLeft(d, s)) == Words(d, s)
  {
    var l := TrimLeft(d, s);
    TrimLeftDropsBlank(d, s);
    TrimLeftSuffix(d, s);
    var pre := s[..|s| - |l|];
    assert s == pre + l;
    WordsDropLeadingBlank(d, pre, l);
  }

  lemma WordsOfTrimRight(d: Dialect, s: string)
    ensures Words(d, TrimRight(d, s)) == Words(d, s)
  {
    var r := TrimRight(d, s);
    TrimRightDropsBlank(d, s);
    TrimRightPrefix(d, s);
    var suf := s[|r|..];
    assert s == r + suf;
    WordsDropTrailingBlank(d, r, suf);
  }

  /** Trimming first does not change the words. */
  lemma WordsOfTrim(d: Dialect, s: string)
    ensures Words(d, Trim(d, s)) == Words(d, s)
  {
    WordsOfTrimLeft(d, s);
    WordsOfTrimRight(d, TrimLeft(d, s));
  }

  /** ECMAScript `s.trim().split(/\s+/)`: splitting the empty string yields
      one empty piece, and a trimmed non-empty string has no outer
      whitespace, so its pieces are its words. `JsTrimSplitIsTrimThenSplit`
      shows this agrees with trimming first. */
  function JsTrimSplit(s: string): (parts: seq<string>)
    ensures |parts| >= 1
    ensures IsBlank(JavaScript, s) ==> parts == [""]
    ensures !IsBlank(JavaScript, s) ==> parts == Words(JavaScript, s)
  {
    if IsBlank(JavaScript, s) then [""]
    else
      WordsEmptyIffBlank(JavaScript, s);
      Words(JavaScript, s)
  }

  /** Trimming and then cutting at every whitespace run gives the same
      pieces: one empty piece when nothing is left, the words otherwise. */
  lemma JsTrimSplitIsTrimThenSplit(s: string)
    ensures Trim(JavaScript, s) == [] ==> JsTrimSplit(s) == [""]
    ensures Trim(JavaScript, s) != [] ==> JsTrimSplit(s) == Words(JavaScript, Trim(JavaScript, s))
  {
    TrimEmptyIffBlank(JavaScript, s);
    WordsOfTrim(JavaScript, s);
  }

  // ---- splitlines ----

  predicate IsLineBreak(c: char) {
    c == '\n' || c == '\r' || c == '\U{0b}' || c == '\U{0c}' || ('\U{1c}' <= c <= '\U{1e}')
    || c == '\U{85}' || c == '\U{2028}' || c == '\U{2029}'
  }

  function LineLen(s: string): (n: nat)
    ensures n <= |s|
    ensures forall i :: 0 <= i < n ==> !IsLineBreak(s[i])
    ensures n < |s| ==> IsLineBreak(s[n])
  {
    if s == [] || IsLineBreak(s[0]) then 0 else 1 + LineLen(s[1..])
  }

  /** Where the line after the first one starts: past its break, with
      "\r\n" counting as one break. */
  function NextLine(s: string): (k: nat)
    requires LineLen(s) < |s|
    ensures LineLen(s) < k <= |s|
    ensures s[LineLen(s)] == '\n' ==> k == LineLen(s) + 1
  {
    var n := LineLen(s);
    if s[n] == '\r' && n + 1 < |s| && s[n + 1] == '\n' then n + 2 else n + 1
  }

  /** Python `str.splitlines()`: "\r\n" is one break, a final break does not
      start an extra empty line. */
  function SplitLines(s: string): (lines: seq<string>)
    ensures forall i :: 0 <= i < |lines| ==> NoBreak(lines[i])
    ensures lines == [] <==> s == []
    decreases |s|
  {
    if s == [] then []
    else if LineLen(s) == |s| then [s]
    else [s[..LineLen(s)]] + SplitLines(s[NextLine(s)..])
  }

  predicate NoBreak(l: string) {
    forall j :: 0 <= j < |l| ==> !IsLineBreak(l[j])
  }

  lemma {:induction false} LineLenOfPrefix(l: string, rest: string)
    requires NoBreak(l) && (rest == [] || IsLineBreak(rest[0]))
    ensures LineLen(l + rest) == |l|
    decreases |l|
  {
    if l == [] {
      assert l + rest == rest;
    } else {
      assert (l + rest)[0] == l[0] && (l + rest)[1..] == l[1..] + rest;
      assert NoBreak(l[1..]) by {
        forall j | 0 <= j < |l[1..]| ensures !IsLineBreak(l[1..][j]) {
          assert l[1..][j] == l[j + 1];
        }
      }
      LineLenOfPrefix(l[1..], rest);
    }
  }

  /** Lines free of breaks, joined with "\n", split back into themselves,
      provided the last line is not empty (`splitlines()` drops what
      follows a final break). */
  lemma {:induction false} SplitJoinLines(ls: seq<string>)
    requires forall i :: 0 <= i < |ls| ==> NoBreak(ls[i])
    requires ls == [] || ls[|ls| - 1] != []
    ensures SplitLines(JoinWith(ls, "\n")) == ls
    decreases |ls|
  {
    if |ls| == 1 {
      LineLenOfPrefix(ls[0], []);
      assert ls[0] + [] == ls[0];
    } else if |ls| >= 2 {
      assert NoBreak(ls[0]);
      SplitJoinLines(ls[1..]);
      JoinCons(ls[0], ls[1..], "\n");
      assert [ls[0]] + ls[1..] == ls;
      SplitAfterLine(ls[0], JoinWith(ls[1..], "\n"));
    }
  }

  /** A line without breaks, a "\n", then more text: the line comes first. */
  lemma SplitAfterLine(l: string, rest: string)
    requires NoBreak(l)
    ensures SplitLines(l + "\n" + rest) == [l] + SplitLines(rest)
  {
    var s := l + "\n" + rest;
    assert s == l + ("\n" + rest);
    LineLenOfPrefix(l, "\n" + rest);
    assert s[|l|] == '\n' && s[|l| + 1..] == rest && s[..|l|] == l;
    SplitLinesStep(s);
  }

  /** Every line break in `s` is a "\n". */
  predicate OnlyNewlines(s: string) {
    forall i :: 0 <= i < |s| && IsLineBreak(s[i]) ==> s[i] == '\n'
  }

  /** Cutting at a "\n" that ends the first line. */
  lemma SplitLinesUnfold(s: string)
    requires LineLen(s) < |s|
    ensures SplitLines(s) == [s[..LineLen(s)]] + SplitLines(s[NextLine(s)..])
  {
    assert s != [];
  }

  lemma SplitLinesStep(s: string)
    requires LineLen(s) < |s| && s[LineLen(s)] == '\n'
    ensures SplitLines(s) == [s[..LineLen(s)]] + SplitLines(s[LineLen(s) + 1..])
  {
    SplitLinesUnfold(s);
    assert NextLine(s) == LineLen(s) + 1;
    assert s[NextLine(s)..] == s[LineLen(s) + 1..];
  }

  lemma JoinCons(x: string, ls: seq<string>, sep: string)
    requires ls != []
    ensures JoinWith([x] + ls, sep) == x + sep + JoinWith(ls, sep)
  {
    assert ([x] + ls)[1..] == ls;
  }

  lemma OnlyNewlinesRest(s: string, n: nat)
    requires OnlyNewlines(s) && n <= |s|
    ensures OnlyNewlines(s[n..])
  {
    assert forall i :: 0 <= i < |s| - n ==> s[n..][i] == s[n + i];
  }

  /** Text whose only breaks are single "\n"s, and which does not end with
      one, is its lines joined with "\n". */
  lemma {:induction false} JoinSplitLines(s: string)
    requires OnlyNewlines(s)
    requires s == [] || !IsLineBreak(s[|s| - 1])
    ensures JoinWith(SplitLines(s), "\n") == s
    decreases |s|
  {
    if s != [] {
      var n := LineLen(s);
      if n < |s| {
        AfterFirstLine(s);
        JoinSplitLines(s[n + 1..]);
        JoinSplitLinesStep(s);
      } else {
        SplitOneLine(s);
      }
    }
  }

  /** A text without a break is one line. */
  lemma SplitOneLine(s: string)
    requires s != [] && LineLen(s) == |s|
    ensures SplitLines(s) == [s]
  {
  }

  /** What is left after the first line of such a string is again such a string. */
  lemma AfterFirstLine(s: string)
    requires OnlyNewlines(s) && s != [] && !IsLineBreak(s[|s| - 1])
    requires LineLen(s) < |s|
    ensures s[LineLen(s)] == '\n' && LineLen(s) + 1 < |s|
    ensures OnlyNewlines(s[LineLen(s) + 1..])
    ensures var rest := s[LineLen(s) + 1..]; rest == [] || !IsLineBreak(rest[|rest| - 1])
  {
    var n := LineLen(s);
    assert s[n] == '\n' && n + 1 < |s|;
    var rest := s[n + 1..];
    OnlyNewlinesRest(s, n + 1);
    assert rest[|rest| - 1] == s[|s| - 1];
  }

  /** One line of `JoinSplitLines`: the first line, a newline, then the rest joined back. */
  lemma JoinSplitLinesStep(s: string)
    requires LineLen(s) + 1 < |s| && s[LineLen(s)] == '\n'
    requires JoinWith(SplitLines(s[LineLen(s) + 1..]), "\n") == s[LineLen(s) + 1..]
    ensures JoinWith(SplitLines(s), "\n") == s
  {
    var n := LineLen(s);
    var rest := s[n + 1..];
    SplitLinesStep(s);
    NewlineSplit(s, n);
    JoinConsBack(s, s[..n], rest, SplitLines(rest), SplitLines(s));
  }

  lemma NewlineSplit(s: string, n: nat)
    requires n < |s| && s[n] == '\n'
    ensures s == s[..n] + "\n" + s[n + 1..]
  {
    Split3(s, n, n + 1);
    assert s[n..n + 1] == "\n";
  }

  lemma JoinConsBack(s: string, x: string, rest: string, ls: seq<string>, all: seq<string>)
    requires s == x + "\n" + rest && rest != []
    requires all == [x] + ls && JoinWith(ls, "\n") == rest
    ensures JoinWith(all, "\n") == s
  {
    JoinCons(x, ls, "\n");
  }

  // ---- splitting at '=' ----

  function IndexOf(s: string, c: char): (i: nat)
    ensures i <= |s|
    ensures i < |s| ==> s[i] == c
    ensures forall k :: 0 <= k < i ==> s[k] != c
  {
    if s == [] then 0
    else if s[0] == c then 0
    else 1 + IndexOf(s[1..], c)
  }

  /** Python `s.split(c, 1)` on a string that contains `c`: the text before
      the first `c` and everything after it. */
  function SplitOnce(s: string, c: char): (kv: (string, string))
    requires c in s
    ensures c !in kv.0
    ensures s == kv.0 + [c] + kv.1
  {
    var i := IndexOf(s, c);
    assert i < |s| by {
      var k :| 0 <= k < |s| && s[k] == c;
    }
    assert s == s[..i] + [c] + s[i + 1..];
    (s[..i], s[i + 1..])
  }

  /** ECMAScript destructuring `[key, value] = s.split(c, 2)` on a string that
      contains `c`: the text before the first `c`, and the text between the
      first and the second `c` (or to the end). */
  function SplitLimit2(s: string, c: char): (string, string)
    requires c in s
  {
    var kr := SplitOnce(s, c);
    (kr.0, kr.1[..IndexOf(kr.1, c)])
  }

  /** The key is Python's, the value stops before the second `c`, and
      when there is no second `c` the two splits agree. */
  lemma SplitLimit2Parts(s: string, c: char)
    requires c in s
    ensures var kv := SplitLimit2(s, c);
      c !in kv.0 && c !in kv.1
      && kv.0 + [c] + kv.1 <= s
      && kv.0 == SplitOnce(s, c).0
      && (|kv.0| + 1 + |kv.1| == |s| || s[|kv.0| + 1 + |kv.1|] == c)
      && (c !in SplitOnce(s, c).1 ==> kv == SplitOnce(s, c))
  {
    var kr := SplitOnce(s, c);
    PrefixUpTo(kr.0, kr.1, c, IndexOf(kr.1, c));
  }

  lemma PrefixUpTo(k: string, rest: string, c: char, j: nat)
    requires j == IndexOf(rest, c)
    ensures c !in rest[..j]
    ensures k + [c] + rest[..j] <= k + [c] + rest
    ensures c !in rest ==> rest[..j] == rest
  {
  }

  // ---- decimal integers ----

  predicate IsDigit(c: char) { '0' <= c <= '9' }

  function DigitValue(c: char): (v: nat)
    requires IsDigit(c)
    ensures v < 10
  {
    c as int - '0' as int
  }

  function DigitChar(v: nat): (c: char)
    requires v < 10
    ensures IsDigit(c) && DigitValue(c) == v
  {
    ('0' as int + v) as char
  }

  /** Python's `digitpart`: decimal digits, optionally separated by single
      underscores. */
  predicate IsDigitPart(s: string)
    decreases |s|
  {
    && |s| > 0
    && IsDigit(s[0])
    && (|s| == 1 || (if s[1] == '_' then IsDigitPart(s[2..]) else IsDigitPart(s[1..])))
  }

  predicate DigitsOrUnderscores(s: string) {
    forall i :: 0 <= i < |s| ==> IsDigit(s[i]) || s[i] == '_'
  }

  lemma {:induction false} DigitPartChars(s: string)
    requires IsDigitPart(s)
    ensures DigitsOrUnderscores(s)
    decreases |s|
  {
    if |s| > 1 {
      var k := if s[1] == '_' then 2 else 1;
      DigitPartChars(s[k..]);
      forall i | 0 <= i < |s| ensures IsDigit(s[i]) || s[i] == '_' {
        if i >= k { assert s[i] == s[k..][i - k]; }
      }
    }
  }

  lemma {:induction false} AllDigitsIsDigitPart(s: string)
    requires |s| > 0
    requires forall i :: 0 <= i < |s| ==> IsDigit(s[i])
    ensures IsDigitPart(s)
    decreases |s|
  {
    if |s| > 1 {
      AllDigitsIsDigitPart(s[1..]);
    }
  }

  /** Value of a digit part; underscores carry no value. */
  function DigitsValue(s: string): nat
    requires DigitsOrUnderscores(s)
  {
    if s == [] then 0
    else if s[|s| - 1] == '_' then DigitsValue(s[..|s| - 1])
    else 10 * DigitsValue(s[..|s| - 1]) + DigitValue(s[|s| - 1])
  }

  /** Python's `int(s)` on text: surrounding whitespace, an optional sign and
      a digit part; anything else raises `ValueError`, modelled as `None`. */
  function PyParseInt(s: string): Option<int> {
    ParseSignedDigits(Trim(Python, s))
  }

  /** An optional sign followed by a digit part. */
  function ParseSignedDigits(t: string): Option<int> {
    var neg := |t| > 0 && t[0] == '-';
    var body := if |t| > 0 && (t[0] == '-' || t[0] == '+') then t[1..] else t;
    if IsDigitPart(body) then
      DigitPartChars(body);
      var v := DigitsValue(body);
      var n: int := if neg then 0 - v else v;
      Some(n)
    else None
  }

  function ShowNat(n: nat): (s: string)
    ensures |s| > 0
    ensures forall i :: 0 <= i < |s| ==> IsDigit(s[i])
  {
    if n < 10 then [DigitChar(n)] else ShowNat(n / 10) + [DigitChar(n % 10)]
  }

  /** Python `str(n)` / JavaScript `String(n)` of an integer. */
  function ShowInt(n: int): string {
    if n < 0 then "-" + ShowNat(-n) else ShowNat(n)
  }

  lemma {:induction false} ShowNatValue(n: nat)
    ensures DigitsValue(ShowNat(n)) == n
    ensures IsDigitPart(ShowNat(n))
  {
    AllDigitsIsDigitPart(ShowNat(n));
    if n >= 10 {
      ShowNatValue(n / 10);
      var s := ShowNat(n);
      assert s[..|s| - 1] == ShowNat(n / 10);
    }
  }

  lemma SignedDigitsNoSpace(sign: string, digits: string)
    requires sign == "" || sign == "-"
    requires IsDigitPart(digits)
    ensures NoSpace(Python, sign + digits)
  {
    DigitPartChars(digits);
    var s := sign + digits;
    forall i | 0 <= i < |s| ensures !IsSpace(Python, s[i]) {
      if i >= |sign| { assert s[i] == digits[i - |sign|]; }
    }
  }

  lemma ParseDigits(digits: string)
    requires IsDigitPart(digits)
    requires DigitsOrUnderscores(digits)
    ensures PyParseInt(digits) == Some(DigitsValue(digits) as int)
  {
    SignedDigitsNoSpace("", digits);
    assert "" + digits == digits;
    NoSpaceTrim(Python, digits);
    UnsignedDigits(digits);
  }

  lemma UnsignedDigits(digits: string)
    requires IsDigitPart(digits)
    requires DigitsOrUnderscores(digits)
    ensures ParseSignedDigits(digits) == Some(DigitsValue(digits) as int)
  {
    DigitPartChars(digits);
    assert IsDigit(digits[0]);
  }

  lemma ParseNegDigits(digits: string)
    requires IsDigitPart(digits)
    requires DigitsOrUnderscores(digits)
    ensures PyParseInt("-" + digits) == Some(0 - DigitsValue(digits))
  {
    var t := "-" + digits;
    ConsParts('-', digits);
    SignedDigitsNoSpace("-", digits);
    NoSpaceTrim(Python, t);
  }

  lemma ConsParts(c: char, s: string)
    ensures ([c] + s)[0] == c
    ensures ([c] + s)[1..] == s
  {}

  /** `int(str(n)) == n`: rendering an integer in decimal and parsing it back
      with Python's `int()` gives the integer back. */
  lemma ParseShowRoundTrip(n: int)
    ensures PyParseInt(ShowInt(n)) == Some(n)
  {
    var m: nat := if n < 0 then 0 - n else n;
    var digits := ShowNat(m);
    ShowNatValue(m);
    DigitPartChars(digits);
    if n < 0 {
      assert ShowInt(n) == "-" + digits;
      ParseNegDigits(digits);
    } else {
      assert ShowInt(n) == digits;
      ParseDigits(digits);
    }
  }

  lemma NoSpaceTrim(d: Dialect, s: string)
    requires NoSpace(d, s)
    ensures Trim(d, s) == s
  {
    if s != [] {
      assert !IsSpace(d, s[0]);
      assert !IsSpace(d, s[|s| - 1]);
    }
  }

  // ---- Python float() literal grammar ----

  function Lower(c: char): char {
    if 'A' <= c <= 'Z' then (c as int + 32) as char else c
  }

  function LowerAll(s: string): (r: string)
    ensures |r| == |s|
    ensures forall i :: 0 <= i < |s| ==> r[i] == Lower(s[i])
  {
    if s == [] then [] else [Lower(s[0])] + LowerAll(s[1..])
  }

  /** `digitpart "." [digitpart] | "." digitpart | digitpart` */
  predicate IsMantissa(m: string) {
    var i := IndexOf(m, '.');
    if i == |m| then IsDigitPart(m)
    else
      var a := m[..i];
      var b := m[i + 1..];
      (IsDigitPart(a) && (b == [] || IsDigitPart(b))) || (a == [] && IsDigitPart(b))
  }

  predicate IsSignedDigitPart(e: string) {
    if |e| > 0 && (e[0] == '+' || e[0] == '-') then IsDigitPart(e[1..]) else IsDigitPart(e)
  }

  function ExponentIndex(s: string): (i: nat)
    ensures i <= |s|
    ensures i < |s| ==> s[i] == 'e' || s[i] == 'E'
  {
    if s == [] then 0
    else if s[0] == 'e' || s[0] == 'E' then 0
    else 1 + ExponentIndex(s[1..])
  }

  /** Text accepted by Python's `float()`: surrounding whitespace, an
      optional sign, then `inf`, `infinity`, `nan` in any letter case, or a
      decimal literal with an optional exponent. */
  predicate IsPyFloatText(s: string) {
    var t := Trim(Python, s);
    var body := if |t| > 0 && (t[0] == '-' || t[0] == '+') then t[1..] else t;
    var lower := LowerAll(body);
    if lower == "inf" || lower == "infinity" || lower == "nan" then true
    else
      var e := ExponentIndex(body);
      if e == |body| then IsMantissa(body)
      else IsMantissa(body[..e]) && IsSignedDigitPart(body[e + 1..])
  }

  // ---- letter case ----

  function Upper(c: char): char {
    if 'a' <= c <= 'z' then (c as int - 32) as char else c
  }

  import opened Wrappers
}
