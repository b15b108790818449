/** A command parameter as both terminal frameworks describe it
    (backend/terminal/terminal.py and frontend/src/terminal/Command.js):
    the two `Parameter` classes hold the same fields and print the same help
    line; they differ only in the converters a parameter may declare, which
    is the type argument `T` here. */
module Parameters {
  import opened Wrappers
  import opened Args
  import HelpText
  import Seqs

  /** `Parameter`; a `dtype` of None marks a flag. */
  datatype Param<T> = Param(
    name: string,
    dtype: Option<T>,
    description: string,
    required: bool,
    alias: Option<string>,
    positional: bool)

  /** The fields a help line shows, with `typeName` naming a converter. */
  function Shown<T>(p: Param<T>, typeName: T -> string): HelpText.LineFields {
    HelpText.LineFields(
      p.positional,
      p.name,
      if AliasSet(p.alias) then p.alias.value else "",
      if p.dtype.Some? then typeName(p.dtype.value) else "flag",
      p.required && !p.positional,
      p.description)
  }

  /** Names, aliases and converter names a help line can be read back
      from. */
  predicate Legible<T>(p: Param<T>, typeName: T -> string) {
    ' ' !in p.name
    && (p.positional ==> p.name == [] || p.name[0] != '-')
    && (AliasSet(p.alias) ==> ',' !in p.alias.value)
    && (p.dtype.Some? ==> ',' !in typeName(p.dtype.value) && ')' !in typeName(p.dtype.value))
  }

  /** `Parameter.__repr__` / `Parameter.toString`: the line names the
      parameter bare when it is positional and with `--` otherwise, shows
      the alias only when it is truthy, the converter's name or `flag`, and
      marks only required keyword parameters; each of these can be read
      back from the line. */
  function ParamLine<T>(p: Param<T>, typeName: T -> string): (line: string)
    ensures Legible(p, typeName) ==> HelpText.ParseHelpLine(line) == Some(HelpText.LineFields(
      p.positional,
      p.name,
      if AliasSet(p.alias) then p.alias.value else "",
      if p.dtype.Some? then typeName(p.dtype.value) else "flag",
      p.required && !p.positional,
      p.description))
  {
    ShownReadable(p, typeName);
    HelpText.HelpLine(Shown(p, typeName))
  }

  lemma ShownReadable<T>(p: Param<T>, typeName: T -> string)
    ensures Legible(p, typeName) ==> HelpText.ParseHelpLine(HelpText.HelpLine(Shown(p, typeName))) == Some(Shown(p, typeName))
  {
    if Legible(p, typeName) {
      HelpText.ParseHelpLineRoundTrip(Shown(p, typeName));
    }
  }

  function ParamLines<T>(ps: seq<Param<T>>, typeName: T -> string): (lines: seq<string>)
    ensures |lines| == |ps|
    ensures forall i :: 0 <= i < |ps| ==> lines[i] == ParamLine(ps[i], typeName)
  {
    if ps == [] then [] else [ParamLine(ps[0], typeName)] + ParamLines(ps[1..], typeName)
  }

  /** `Command.help_statement` / `Command.helpStatement`: the header alone
      without parameters, else the header followed by one tab-indented help
      line per parameter. */
  function CommandHelp<T>(name: string, description: string, ps: seq<Param<T>>, typeName: T -> string): (s: string)
    ensures ps == [] ==> s == name + " - " + description
    ensures ps != [] ==> s == name + " - " + description + HelpText.Indented(ParamLines(ps, typeName))
  {
    LinesNotBlank(ps, typeName);
    HelpText.HelpStatement(name, description, ParamLines(ps, typeName))
  }

  /** Help lines are never empty, so parameters always produce hints. */
  lemma LinesNotBlank<T>(ps: seq<Param<T>>, typeName: T -> string)
    ensures ps != [] ==> ParamLines(ps, typeName) != [""]
  {
    if ps != [] {
      var line := ParamLine(ps[0], typeName);
      assert ParamLines(ps, typeName)[0] == line;
      if ps[0].positional {
        assert ps[0].name + " (" <= line;
      } else {
        assert "--" + ps[0].name + " (" <= line;
      }
    }
  }

  function Names<T>(ps: seq<Param<T>>): (ns: seq<string>)
    ensures |ns| == |ps|
    ensures forall i :: 0 <= i < |ps| ==> ns[i] == ps[i].name
  {
    if ps == [] then [] else [ps[0].name] + Names(ps[1..])
  }

  /** With distinct names, every parameter is the last of its name. */
  lemma DistinctNamesLast<T>(ps: seq<Param<T>>)
    ensures Seqs.Distinct(Names(ps)) ==> forall j, n :: 0 <= j < n < |ps| ==> ps[n].name != ps[j].name
  {
    if Seqs.Distinct(Names(ps)) {
      forall j, n | 0 <= j < n < |ps| ensures ps[n].name != ps[j].name {
        assert Names(ps)[j] != Names(ps)[n];
      }
    }
  }
}
