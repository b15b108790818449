/** The JavaScript command object of the terminal framework
    (frontend/src/terminal/Command.js): the parameter description, the
    constructor's duplicate checks, and the call that binds positional and
    keyword arguments before invoking the function with the terminal and
    a keyword object. */
module JsCommand {
  import opened Wrappers
  import opened Args
  import HelpText
  import opened Parameters
  import Seqs

  /** The declared type of a parameter: the `String` or `Number` global,
      applied to the value as a converter. */
  datatype JsType = JsString | JsNumber

  function TypeName(t: JsType): string {
    match t
    case JsString => "String"
    case JsNumber => "Number"
  }

  /** A value handed to `call`: a string, the boolean `true` of a bare
      flag, or a plain object. */
  datatype JsVal = JText(s: string) | JTrue | JObj(kw: Kwargs)

  function FromKw(v: KwValue): JsVal {
    match v
    case Str(s) => JText(s)
    case True => JTrue
  }

  /** A bound argument: the value as given, or the result of applying a
      converter to it. `String(v)` and `Number(v)` never throw; the number
      a conversion yields is not modelled. */
  datatype Arg = Given(v: JsVal) | Converted(t: JsType, v: JsVal)

  /** What a command runs: the context's help listing, a user function
      known by identity, or one of the two functions `createRelation`
      installs, which enter the context `child` and leave the current one. */
  datatype FuncRef = ContextHelp | UserFunc(id: string) | EnterChild(child: string, welcome: string) | ExitContext

  datatype Command = Command(name: string, description: string, params: seq<Param<JsType>>, func: FuncRef)

  // ---- help text ----

  /** `Command.helpStatement`, with the JavaScript converters' names. */
  function Help(c: Command): string {
    CommandHelp(c.name, c.description, c.params, TypeName)
  }

  // ---- construction ----

  /** The value passed as `func`: a function with its `name`, or anything
      else. */
  datatype Obj = Fn(fname: string, id: FuncRef) | NotFunction

  const DuplicateNames := "Duplicate parameter names found in command parameters."
  const DuplicateAliases := "Duplicate parameter aliases found in command parameters."

  /** Some earlier parameter has the name of parameter `i`. */
  predicate NameRepeated(ps: seq<Param<JsType>>, i: nat)
    requires i < |ps|
  {
    exists j :: 0 <= j < i && ps[j].name == ps[i].name
  }

  /** Parameter `i` has a truthy alias some earlier parameter also has. */
  predicate AliasRepeated(ps: seq<Param<JsType>>, i: nat)
    requires i < |ps|
  {
    AliasSet(ps[i].alias) && exists j :: 0 <= j < i && AliasSet(ps[j].alias) && ps[j].alias.value == ps[i].alias.value
  }

  predicate Clash(ps: seq<Param<JsType>>, i: nat)
    requires i < |ps|
  {
    NameRepeated(ps, i) || AliasRepeated(ps, i)
  }

  function NamesBefore(ps: seq<Param<JsType>>, i: nat): set<string>
    requires i <= |ps|
  {
    set j | 0 <= j < i :: ps[j].name
  }

  function AliasesBefore(ps: seq<Param<JsType>>, i: nat): set<string>
    requires i <= |ps|
  {
    set j | 0 <= j < i && AliasSet(ps[j].alias) :: ps[j].alias.value
  }

  /** The first parameter from `i` on whose name or alias repeats an
      earlier one, or `|ps|` when there is none. */
  function FirstClash(ps: seq<Param<JsType>>, i: nat): (j: nat)
    requires i <= |ps|
    decreases |ps| - i
    ensures i <= j <= |ps|
    ensures forall m :: i <= m < j ==> !Clash(ps, m)
    ensures j < |ps| ==> Clash(ps, j)
  {
    if i == |ps| || Clash(ps, i) then i else FirstClash(ps, i + 1)
  }

  /** The message for a clash at parameter `j`: the name is checked first. */
  function ClashMessage(ps: seq<Param<JsType>>, j: nat): string
    requires j < |ps|
  {
    if NameRepeated(ps, j) then DuplicateNames else DuplicateAliases
  }

  /** The constructor's loop from parameter `i` on, with the names and
      truthy aliases seen so far: each parameter's name is checked, then its
      alias, so the first clash decides which message is thrown. */
  function CheckFrom(ps: seq<Param<JsType>>, i: nat, names: set<string>, aliases: set<string>): (r: Option<string>)
    requires i <= |ps|
    requires names == NamesBefore(ps, i) && aliases == AliasesBefore(ps, i)
    decreases |ps| - i
    ensures r.None? <==> FirstClash(ps, i) == |ps|
    ensures r.Some? ==> r.value == ClashMessage(ps, FirstClash(ps, i))
  {
    if i == |ps| then None
    else
      var p := ps[i];
      if p.name in names then
        assert NameRepeated(ps, i) && Clash(ps, i);
        Some(DuplicateNames)
      else
        assert !NameRepeated(ps, i);
        if AliasSet(p.alias) && p.alias.value in aliases then
          assert AliasRepeated(ps, i) && Clash(ps, i);
          Some(DuplicateAliases)
        else
          assert !Clash(ps, i);
          NextSets(ps, i);
          CheckFrom(ps, i + 1, names + {p.name}, if AliasSet(p.alias) then aliases + {p.alias.value} else aliases)
  }

  lemma NextSets(ps: seq<Param<JsType>>, i: nat)
    requires i < |ps|
    ensures NamesBefore(ps, i + 1) == NamesBefore(ps, i) + {ps[i].name}
    ensures AliasesBefore(ps, i + 1)
      == if AliasSet(ps[i].alias) then AliasesBefore(ps, i) + {ps[i].alias.value} else AliasesBefore(ps, i)
  {
  }

  /** `new Command(func, name, description, params)`: a non-function is
      refused; the first parameter whose name or truthy alias repeats an
      earlier one is refused with the message for whichever of the two
      repeats, the name being checked first; the name defaults to the
      function's, the parameters to none. */
  function NewCommand(func: Obj, name: Option<string>, description: string, params: Option<seq<Param<JsType>>>)
    : (r: Result<Command, string>)
    ensures func.NotFunction? ==> r == Failure("func must be a function")
    ensures func.Fn? ==> (r.Success? <==> forall j :: 0 <= j < |params.GetOr([])| ==> !Clash(params.GetOr([]), j))
    ensures func.Fn? && r.Failure? ==> (FirstClash(params.GetOr([]), 0) < |params.GetOr([])|
      && r.error == ClashMessage(params.GetOr([]), FirstClash(params.GetOr([]), 0)))
    ensures r.Success? ==> r.value == Command(
      if name.Some? && name.value != "" then name.value else func.fname,
      description, params.GetOr([]), func.id)
  {
    match func
    case NotFunction => Failure("func must be a function")
    case Fn(fname, id) =>
      var ps := params.GetOr([]);
      assert NamesBefore(ps, 0) == {} && AliasesBefore(ps, 0) == {};
      match CheckFrom(ps, 0, {}, {})
      case Some(msg) => Failure(msg)
      case None => Success(Command(if name.Some? && name.value != "" then name.value else fname, description, ps, id))
  }

  /** The constructor accepts exactly the parameter lists whose names are
      distinct and whose truthy aliases are distinct. */
  lemma NoClashIffDistinct(ps: seq<Param<JsType>>)
    ensures (forall j :: 0 <= j < |ps| ==> !Clash(ps, j))
      <==> (Seqs.Distinct(Names(ps)) && Seqs.Distinct(SetAliases(ps)))
  {
    NamesDistinct(ps);
    AliasesDistinct(ps);
    if forall j :: 0 <= j < |ps| ==> !Clash(ps, j) {
      forall j | 0 <= j < |ps| ensures !NameRepeated(ps, j) && !AliasRepeated(ps, j) {
        assert !Clash(ps, j);
      }
    }
    if (forall j :: 0 <= j < |ps| ==> !NameRepeated(ps, j)) && (forall j :: 0 <= j < |ps| ==> !AliasRepeated(ps, j)) {
      forall j | 0 <= j < |ps| ensures !Clash(ps, j) {
        assert !NameRepeated(ps, j) && !AliasRepeated(ps, j);
      }
    }
  }

  /** The truthy aliases, in parameter order. */
  function SetAliases(ps: seq<Param<JsType>>): (aliases: seq<string>)
  {
    if ps == [] then []
    else if AliasSet(ps[|ps| - 1].alias) then SetAliases(ps[..|ps| - 1]) + [ps[|ps| - 1].alias.value]
    else SetAliases(ps[..|ps| - 1])
  }

  lemma NamesDistinct(ps: seq<Param<JsType>>)
    ensures (forall j :: 0 <= j < |ps| ==> !NameRepeated(ps, j)) <==> Seqs.Distinct(Names(ps))
  {
    var ns := Names(ps);
    if forall j :: 0 <= j < |ps| ==> !NameRepeated(ps, j) {
      forall a, b | 0 <= a < b < |ns| ensures ns[a] != ns[b] {
        assert !NameRepeated(ps, b);
      }
    }
    if Seqs.Distinct(ns) {
      forall j | 0 <= j < |ps| ensures !NameRepeated(ps, j) {
        forall a | 0 <= a < j ensures ps[a].name != ps[j].name {
          assert ns[a] != ns[j];
        }
      }
    }
  }

  lemma {:induction false} AliasesDistinct(ps: seq<Param<JsType>>)
    ensures (forall j :: 0 <= j < |ps| ==> !AliasRepeated(ps, j)) <==> Seqs.Distinct(SetAliases(ps))
    ensures forall a :: a in SetAliases(ps) <==> a in AliasesBefore(ps, |ps|)
  {
    if ps != [] {
      var init := ps[..|ps| - 1];
      var last := ps[|ps| - 1];
      AliasesDistinct(init);
      assert forall j :: 0 <= j < |init| ==> init[j] == ps[j];
      assert forall j :: 0 <= j < |init| ==> (AliasRepeated(init, j) <==> AliasRepeated(ps, j));
      assert AliasesBefore(ps, |ps| - 1) == AliasesBefore(init, |init|);
      NextSets(ps, |ps| - 1);
      if AliasSet(last.alias) {
        Seqs.DistinctSnoc(SetAliases(init), last.alias.value);
        assert AliasRepeated(ps, |ps| - 1) <==> last.alias.value in AliasesBefore(ps, |ps| - 1);
      } else {
        assert !AliasRepeated(ps, |ps| - 1);
      }
    }
  }

  // ---- the call ----

  /** `call(terminal, ...args)`: a last argument that is a plain object is
      taken as the keyword object and removed; otherwise the keywords are
      empty. */
  function SplitCallArgs(xs: seq<JsVal>): (r: (seq<JsVal>, Kwargs))
    ensures xs != [] && xs[|xs| - 1].JObj? ==> r.0 + [JObj(r.1)] == xs
    ensures !(xs != [] && xs[|xs| - 1].JObj?) ==> r == (xs, map[])
  {
    if xs != [] && xs[|xs| - 1].JObj? then (xs[..|xs| - 1], xs[|xs| - 1].kw) else (xs, map[])
  }

  /** The arguments as `handleCommand` passes them, strings then the
      keyword object, are split back into the two. */
  lemma SplitTokens(args: seq<string>, kw: Kwargs)
    ensures SplitCallArgs(Texts(args) + [JObj(kw)]) == (Texts(args), kw)
  {
    assert (Texts(args) + [JObj(kw)])[..|args|] == Texts(args);
  }

  function Texts(args: seq<string>): (vs: seq<JsVal>)
    ensures |vs| == |args|
    ensures forall i :: 0 <= i < |args| ==> vs[i] == JText(args[i])
  {
    seq(|args|, i requires 0 <= i < |args| => JText(args[i]))
  }

  /** `param.alias && param.alias in kwargs` */
  predicate AliasGiven(p: Param<JsType>, kw: Kwargs) {
    AliasSet(p.alias) && p.alias.value in kw
  }

  predicate KeyGiven(p: Param<JsType>, kw: Kwargs) {
    p.name in kw || AliasGiven(p, kw)
  }

  function Convert(p: Param<JsType>, v: JsVal): Arg {
    if p.dtype.Some? then Converted(p.dtype.value, v) else Given(v)
  }

  /** How many positional parameters precede index `i`: the position
      counter advances for every positional parameter, bound or not. */
  function PosIndex(ps: seq<Param<JsType>>, i: nat): nat
    requires i <= |ps|
  {
    if i == 0 then 0 else PosIndex(ps, i - 1) + (if ps[i - 1].positional then 1 else 0)
  }

  /** Parameter `i` is refused only when it is required and missing: a
      keyword parameter under both its name and alias, a positional one for
      want of an argument. */
  predicate ParamOk(ps: seq<Param<JsType>>, i: nat, args: seq<JsVal>, kw: Kwargs)
    requires i < |ps|
  {
    KeywordOk(ps[i], kw) && PositionalOk(ps[i], PosIndex(ps, i), args)
  }

  predicate KeywordOk(p: Param<JsType>, kw: Kwargs) {
    !(p.required && !p.positional && !KeyGiven(p, kw))
  }

  predicate PositionalOk(p: Param<JsType>, pos: nat, args: seq<JsVal>) {
    !(p.positional && pos >= |args| && p.required)
  }

  function ParamError(ps: seq<Param<JsType>>, i: nat, args: seq<JsVal>, kw: Kwargs): string
    requires i < |ps|
    requires !ParamOk(ps, i, args, kw)
  {
    var p := ps[i];
    if !KeywordOk(p, kw) then "Missing required parameter: " + p.name
    else "Missing required positional parameter: " + p.name
  }

  /** The keyword value parameter `i` receives: the alias's when the alias
      is truthy and given, else the name's. */
  function KeywordValue(p: Param<JsType>, kw: Kwargs): Option<Arg> {
    if AliasGiven(p, kw) then Some(Convert(p, FromKw(kw[p.alias.value])))
    else if p.name in kw then Some(Convert(p, FromKw(kw[p.name])))
    else None
  }

  /** The value parameter `i` contributes: its positional argument if it
      has one, else its keyword value, if any. */
  function Contribution(ps: seq<Param<JsType>>, i: nat, args: seq<JsVal>, kw: Kwargs): Option<Arg>
    requires i < |ps|
  {
    var pos := PosIndex(ps, i);
    if ps[i].positional && pos < |args| then Some(Convert(ps[i], args[pos]))
    else KeywordValue(ps[i], kw)
  }

  /** One accepted parameter's effect on the keyword object: the keyword
      value first, then the positional value over it. */
  function Store(ps: seq<Param<JsType>>, i: nat, args: seq<JsVal>, kw: Kwargs, acc: map<string, Arg>): map<string, Arg>
    requires i < |ps|
  {
    var p := ps[i];
    var kv := KeywordValue(p, kw);
    var acc1 := if kv.Some? then acc[p.name := kv.value] else acc;
    var pos := PosIndex(ps, i);
    if p.positional && pos < |args| then acc1[p.name := Convert(p, args[pos])] else acc1
  }

  lemma StoreContribution(ps: seq<Param<JsType>>, i: nat, args: seq<JsVal>, kw: Kwargs, acc: map<string, Arg>)
    requires i < |ps|
    ensures var c := Contribution(ps, i, args, kw);
      var m := Store(ps, i, args, kw, acc);
      (c.Some? ==> m == acc[ps[i].name := c.value]) && (c.None? ==> m == acc)
  {
  }

  /** The binding loop from parameter `i` on: the first refused parameter
      throws; otherwise each name holds the contribution of the last
      parameter of that name that made one. */
  function BindFrom(ps: seq<Param<JsType>>, i: nat, args: seq<JsVal>, kw: Kwargs, acc: map<string, Arg>)
    : (r: Result<map<string, Arg>, string>)
    requires i <= |ps|
    decreases |ps| - i
    ensures r.Success? <==> forall j :: i <= j < |ps| ==> ParamOk(ps, j, args, kw)
  {
    if i == |ps| then Success(acc)
    else if !KeywordOk(ps[i], kw) then
      assert !ParamOk(ps, i, args, kw);
      Failure(ParamError(ps, i, args, kw))
    else if !PositionalOk(ps[i], PosIndex(ps, i), args) then
      assert !ParamOk(ps, i, args, kw);
      Failure(ParamError(ps, i, args, kw))
    else
      assert ParamOk(ps, i, args, kw);
      BindFrom(ps, i + 1, args, kw, Store(ps, i, args, kw, acc))
  }
  /** The first parameter from `i` on that is not accepted, or `|ps|`
      when all are. */
  function FirstBad(ps: seq<Param<JsType>>, i: nat, args: seq<JsVal>, kw: Kwargs): (j: nat)
    requires i <= |ps|
    decreases |ps| - i
    ensures i <= j <= |ps|
    ensures forall m :: i <= m < j ==> ParamOk(ps, m, args, kw)
    ensures j < |ps| ==> !ParamOk(ps, j, args, kw)
  {
    if i == |ps| || !ParamOk(ps, i, args, kw) then i else FirstBad(ps, i + 1, args, kw)
  }

  /** A failing loop fails with the error of the first parameter not
      accepted. */
  lemma {:induction false} BindFromError(ps: seq<Param<JsType>>, i: nat, args: seq<JsVal>, kw: Kwargs, acc: map<string, Arg>)
    requires i <= |ps|
    requires BindFrom(ps, i, args, kw, acc).Failure?
    decreases |ps| - i
    ensures FirstBad(ps, i, args, kw) < |ps|
    ensures BindFrom(ps, i, args, kw, acc).error == ParamError(ps, FirstBad(ps, i, args, kw), args, kw)
  {
    if ParamOk(ps, i, args, kw) {
      BindFromError(ps, i + 1, args, kw, Store(ps, i, args, kw, acc));
    }
  }



  lemma {:induction false} BindFromKeys(ps: seq<Param<JsType>>, i: nat, args: seq<JsVal>, kw: Kwargs, acc: map<string, Arg>)
    requires i <= |ps|
    requires BindFrom(ps, i, args, kw, acc).Success?
    decreases |ps| - i
    ensures forall k :: (k in BindFrom(ps, i, args, kw, acc).value <==>
      k in acc || exists j :: i <= j < |ps| && ps[j].name == k && Contribution(ps, j, args, kw).Some?)
  {
    if i < |ps| {
      assert ParamOk(ps, i, args, kw);
      var acc2 := Store(ps, i, args, kw, acc);
      StoreContribution(ps, i, args, kw, acc);
      assert BindFrom(ps, i, args, kw, acc) == BindFrom(ps, i + 1, args, kw, acc2);
      BindFromKeys(ps, i + 1, args, kw, acc2);
    }
  }

  lemma {:induction false} BindFromValues(ps: seq<Param<JsType>>, i: nat, args: seq<JsVal>, kw: Kwargs, acc: map<string, Arg>)
    requires i <= |ps|
    requires BindFrom(ps, i, args, kw, acc).Success?
    decreases |ps| - i
    ensures forall j :: (i <= j < |ps| && Contribution(ps, j, args, kw).Some?
        && (forall n :: j < n < |ps| ==> ps[n].name != ps[j].name)
        ==> (ps[j].name in BindFrom(ps, i, args, kw, acc).value
          && BindFrom(ps, i, args, kw, acc).value[ps[j].name] == Contribution(ps, j, args, kw).value))
  {
    if i < |ps| {
      assert ParamOk(ps, i, args, kw);
      var acc2 := Store(ps, i, args, kw, acc);
      StoreContribution(ps, i, args, kw, acc);
      assert BindFrom(ps, i, args, kw, acc) == BindFrom(ps, i + 1, args, kw, acc2);
      BindFromValues(ps, i + 1, args, kw, acc2);
      BindFromKeeps(ps, i + 1, args, kw, acc2);
    }
  }

  lemma {:induction false} BindFromKeeps(ps: seq<Param<JsType>>, i: nat, args: seq<JsVal>, kw: Kwargs, acc: map<string, Arg>)
    requires i <= |ps|
    requires BindFrom(ps, i, args, kw, acc).Success?
    decreases |ps| - i
    ensures forall k :: (k in acc && (forall j :: i <= j < |ps| ==> ps[j].name != k)
      ==> k in BindFrom(ps, i, args, kw, acc).value && BindFrom(ps, i, args, kw, acc).value[k] == acc[k])
  {
    if i < |ps| {
      assert ParamOk(ps, i, args, kw);
      var acc2 := Store(ps, i, args, kw, acc);
      StoreContribution(ps, i, args, kw, acc);
      assert BindFrom(ps, i, args, kw, acc) == BindFrom(ps, i + 1, args, kw, acc2);
      BindFromKeeps(ps, i + 1, args, kw, acc2);
    }
  }

  /** The outcome of `call` short of running the function: the help
      statement, or the keyword object the function receives. */
  datatype Bound = ShowHelp(text: string) | Invoke(kwargs: map<string, Arg>)

  /** `call(terminal, ...args)` after the keyword object is split off: a
      truthy `h` or `help` answers with the help statement; otherwise the
      first required parameter that is missing throws, and the function
      receives exactly the contributions of the parameters, under their
      names. No conversion throws. */
  function Call(c: Command, args: seq<JsVal>, kw: Kwargs): (r: Result<Bound, string>)
    ensures WantsHelp(kw) ==> r == Success(ShowHelp(Help(c)))
    ensures !WantsHelp(kw) ==> (r.Success? <==> forall j :: 0 <= j < |c.params| ==> ParamOk(c.params, j, args, kw))
    ensures !WantsHelp(kw) && r.Failure? ==> (FirstBad(c.params, 0, args, kw) < |c.params|
      && r.error == ParamError(c.params, FirstBad(c.params, 0, args, kw), args, kw))
    ensures !WantsHelp(kw) && r.Success? ==> r.value.Invoke?
    ensures !WantsHelp(kw) && r.Success? ==> forall k :: (k in r.value.kwargs <==>
      exists j :: 0 <= j < |c.params| && c.params[j].name == k && Contribution(c.params, j, args, kw).Some?)
    ensures !WantsHelp(kw) && r.Success? && Seqs.Distinct(Names(c.params)) ==>
      forall j :: (0 <= j < |c.params| && Contribution(c.params, j, args, kw).Some?
        ==> (c.params[j].name in r.value.kwargs
          && r.value.kwargs[c.params[j].name] == Contribution(c.params, j, args, kw).value))
  {
    if WantsHelp(kw) then Success(ShowHelp(Help(c)))
    else
      var b := BindFrom(c.params, 0, args, kw, map[]);
      if b.Failure? then
        BindFromError(c.params, 0, args, kw, map[]);
        Failure(b.error)
      else
        BindFromKeys(c.params, 0, args, kw, map[]);
        BindFromValues(c.params, 0, args, kw, map[]);
        DistinctNamesLast(c.params);
        Success(Invoke(b.value))
  }

  /** A parameter that is neither required nor given is simply absent: an
      optional positional parameter without an argument binds nothing. */
  lemma OptionalPositionalAbsent(ps: seq<Param<JsType>>, i: nat, args: seq<JsVal>, kw: Kwargs)
    requires i < |ps| && ps[i].positional && !ps[i].required
    requires PosIndex(ps, i) >= |args| && !KeyGiven(ps[i], kw)
    ensures ParamOk(ps, i, args, kw) && Contribution(ps, i, args, kw).None?
  {
  }
}
