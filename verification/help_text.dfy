/** The help text both command classes print: one line per parameter and a
    statement per command. The Python and the JavaScript classes format them
    identically; only the type names differ. */
module HelpText {
  import opened Wrappers
  import opened Text

  /** What a parameter's help line shows. `alias` is "" when no alias is in
      effect; `requiredMark` is set for a required keyword parameter. */
  datatype LineFields = LineFields(
    positional: bool,
    name: string,
    alias: string,
    typeName: string,
    requiredMark: bool,
    description: string)

  /** `NAME (alias: -A, type: T, required): DESCRIPTION`, where NAME is the
      bare name of a positional parameter and `--name` otherwise, and the
      alias and required parts appear only when set. */
  function HelpLine(f: LineFields): (line: string)
    ensures f.positional ==> f.name + " (" <= line
    ensures !f.positional ==> "--" + f.name + " (" <= line
  {
    var nameStr := if f.positional then f.name else "--" + f.name;
    nameStr + " (" + Parenthesis(f)
  }

  /** The part of a help line after the opening parenthesis. */
  function Parenthesis(f: LineFields): string {
    var aliasStr := if f.alias != "" then "alias: -" + f.alias + ", " else "";
    var requiredStr := if f.requiredMark then ", required" else "";
    aliasStr + "type: " + f.typeName + requiredStr + "): " + f.description
  }

  /** Fields a help line can be read back from: names without blanks (a
      positional one not starting with '-'), aliases without commas, type
      names without commas or parentheses. */
  predicate Readable(f: LineFields) {
    ' ' !in f.name
    && (f.positional ==> f.name == [] || f.name[0] != '-')
    && ',' !in f.alias
    && ',' !in f.typeName && ')' !in f.typeName
  }

  function StripPrefix(p: string, s: string): (r: Option<string>)
    ensures r.Some? <==> p <= s
    ensures r.Some? ==> s == p + r.value
  {
    if p <= s then Some(s[|p|..]) else None
  }

  /** Position of the first ',' or ')'. */
  function IndexOfMark(s: string): (i: nat)
    ensures i <= |s|
    ensures i < |s| ==> s[i] == ',' || s[i] == ')'
    ensures forall k :: 0 <= k < i ==> s[k] != ',' && s[k] != ')'
  {
    if s == [] then 0
    else if s[0] == ',' || s[0] == ')' then 0
    else 1 + IndexOfMark(s[1..])
  }

  function ParseAlias(s: string): Option<(string, string)> {
    if "alias: -" <= s then
      var t := s[8..];
      var j := IndexOf(t, ',');
      var after :- StripPrefix(", ", t[j..]);
      Some((t[..j], after))
    else Some(("", s))
  }

  /** Reads a help line back into the fields it shows. */
  function ParseHelpLine(line: string): Option<LineFields> {
    var positional := !("--" <= line);
    var rest := if positional then line else line[2..];
    var i := IndexOf(rest, ' ');
    var p :- ParseAfterName(rest[i..]);
    Some(LineFields(positional, rest[..i], p.0, p.1, p.2, p.3))
  }

  /** Reads ` (alias: -A, type: T, required): DESCRIPTION`. */
  function ParseAfterName(s: string): Option<(string, string, bool, string)> {
    var r1 :- StripPrefix(" (", s);
    ParseParenthesis(r1)
  }

  /** Reads `alias: -A, type: T, required): DESCRIPTION` (alias and
      required parts optional) into its four fields. */
  function ParseParenthesis(r1: string): Option<(string, string, bool, string)> {
    var ar := ParseAlias(r1);
    if ar.None? then None else ParseTyped(ar.value.1, ar.value.0)
  }

  /** Reads `type: T, required): DESCRIPTION` (required part optional). */
  function ParseTyped(s: string, alias: string): Option<(string, string, bool, string)> {
    if !("type: " <= s) then None
    else
      var r3 := s[6..];
      var k := IndexOfMark(r3);
      ParseTail(r3[..k], r3[k..], alias)
  }

  /** Reads `, required): DESCRIPTION` or `): DESCRIPTION`. */
  function ParseTail(typeName: string, r4: string, alias: string): Option<(string, string, bool, string)> {
    var mark := ", required" <= r4;
    var r5 := if mark then r4[10..] else r4;
    if "): " <= r5 then Some((alias, typeName, mark, r5[3..])) else None
  }

  lemma IndexOfAt(a: string, b: string, c: char)
    requires c !in a
    requires b != [] && b[0] == c
    ensures IndexOf(a + b, c) == |a|
    ensures (a + b)[..|a|] == a && (a + b)[|a|..] == b
  {
    if a != [] {
      assert (a + b)[1..] == a[1..] + b;
      IndexOfAt(a[1..], b, c);
    }
  }

  lemma IndexOfMarkAt(a: string, b: string)
    requires ',' !in a && ')' !in a
    requires b != [] && (b[0] == ',' || b[0] == ')')
    ensures IndexOfMark(a + b) == |a|
    ensures (a + b)[..|a|] == a && (a + b)[|a|..] == b
  {
    if a != [] {
      assert (a + b)[1..] == a[1..] + b;
      IndexOfMarkAt(a[1..], b);
    }
  }

  lemma ParseAliasPart(alias: string, tail: string)
    requires ',' !in alias
    requires "type: " <= tail
    ensures ParseAlias((if alias != "" then "alias: -" + alias + ", " else "") + tail) == Some((alias, tail))
  {
    if alias != "" {
      var s := "alias: -" + alias + ", " + tail;
      assert s[8..] == alias + (", " + tail);
      IndexOfAt(alias, ", " + tail, ',');
    } else {
      assert "" + tail == tail;
      assert tail[0] != "alias: -"[0];
    }
  }

  lemma ParseTailPart(typeName: string, alias: string, mark: bool, d: string)
    ensures ParseTail(typeName, (if mark then ", required" else "") + "): " + d, alias) == Some((alias, typeName, mark, d))
  {
    var r4 := (if mark then ", required" else "") + "): " + d;
    if mark {
      assert r4[10..] == "): " + d;
    } else {
      assert r4 == "): " + d;
      assert r4[0] != ", required"[0];
    }
  }

  /** A help line determines every field it shows. */
  lemma ParseHelpLineRoundTrip(f: LineFields)
    requires Readable(f)
    ensures ParseHelpLine(HelpLine(f)) == Some(f)
  {
    var nameStr := if f.positional then f.name else "--" + f.name;
    var s1 := " (" + Parenthesis(f);
    var line := HelpLine(f);
    assert line == nameStr + s1;
    ParseNamePart(f.positional, f.name, s1);
    ParseAfterNamePart(f);
    var rest := if !("--" <= line) then line else line[2..];
    var i := IndexOf(rest, ' ');
    assert ParseAfterName(rest[i..]) == Some((f.alias, f.typeName, f.requiredMark, f.description));
  }

  lemma ParseAfterNamePart(f: LineFields)
    requires Readable(f)
    ensures ParseAfterName(" (" + Parenthesis(f)) == Some((f.alias, f.typeName, f.requiredMark, f.description))
  {
    assert (" (" + Parenthesis(f))[2..] == Parenthesis(f);
    ParseParenthesisPart(f);
  }

  lemma ParseNamePart(positional: bool, name: string, s1: string)
    requires ' ' !in name
    requires positional ==> name == [] || name[0] != '-'
    requires s1 != [] && s1[0] == ' '
    ensures var line := (if positional then name else "--" + name) + s1;
      var rest := if !("--" <= line) then line else line[2..];
      var i := IndexOf(rest, ' ');
      ("--" <= line <==> !positional) && rest[..i] == name && rest[i..] == s1
  {
    var line := (if positional then name else "--" + name) + s1;
    if positional {
      if name == [] {
        assert line[0] == ' ';
      } else {
        assert line[0] == name[0];
      }
    } else {
      assert line[2..] == name + s1;
    }
    IndexOfAt(name, s1, ' ');
  }

  lemma ParseParenthesisPart(f: LineFields)
    requires Readable(f)
    ensures ParseParenthesis(Parenthesis(f)) == Some((f.alias, f.typeName, f.requiredMark, f.description))
  {
    var r4 := (if f.requiredMark then ", required" else "") + "): " + f.description;
    var tail := "type: " + (f.typeName + r4);
    assert Parenthesis(f) == (if f.alias != "" then "alias: -" + f.alias + ", " else "") + tail;
    ParseAliasPart(f.alias, tail);
    ParseTypedPart(f.typeName, r4, f.alias);
    ParseTailPart(f.typeName, f.alias, f.requiredMark, f.description);
  }

  lemma ParseTypedPart(typeName: string, r4: string, alias: string)
    requires ',' !in typeName && ')' !in typeName
    requires r4 != [] && (r4[0] == ',' || r4[0] == ')')
    ensures ParseTyped("type: " + (typeName + r4), alias) == ParseTail(typeName, r4, alias)
  {
    var s := "type: " + (typeName + r4);
    assert s[6..] == typeName + r4;
    IndexOfMarkAt(typeName, r4);
  }

  /** `name - description`, followed by one tab-indented help line per
      parameter when there are parameters. */
  function HelpStatement(name: string, description: string, lines: seq<string>): (s: string)
    ensures lines == [] || lines == [""] ==> s == name + " - " + description
    ensures lines != [] && lines != [""] ==> s == name + " - " + description + Indented(lines)
  {
    var hints := JoinWith(lines, "\n\t");
    JoinNonEmpty(lines);
    JoinIndented(lines);
    if hints != "" then name + " - " + description + "\n\t" + hints
    else name + " - " + description
  }

  /** Each line preceded by a newline and a tab. */
  function Indented(lines: seq<string>): string {
    if lines == [] then "" else "\n\t" + lines[0] + Indented(lines[1..])
  }

  lemma {:induction false} JoinIndented(lines: seq<string>)
    ensures lines != [] ==> "\n\t" + JoinWith(lines, "\n\t") == Indented(lines)
  {
    if lines == [] {
    } else if |lines| == 1 {
      assert Indented(lines[1..]) == "";
    } else {
      var tail := JoinWith(lines[1..], "\n\t");
      assert JoinWith(lines, "\n\t") == lines[0] + "\n\t" + tail;
      JoinIndented(lines[1..]);
      assert Indented(lines) == "\n\t" + lines[0] + ("\n\t" + tail);
    }
  }

  /** The joined hints are empty only for no lines or one empty line. */
  lemma JoinNonEmpty(lines: seq<string>)
    ensures JoinWith(lines, "\n\t") == "" <==> lines == [] || lines == [""]
  {
    if |lines| >= 2 {
      assert JoinWith(lines, "\n\t") == lines[0] + "\n\t" + JoinWith(lines[1..], "\n\t");
    }
  }
}
