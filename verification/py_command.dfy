/** The Python command object of the terminal framework
    (backend/terminal/terminal.py): a parameter description, construction of
    a command with parameter inference from a function signature, and the
    call that validates and converts tokenized arguments before invoking
    the function with keyword arguments only. */
module PyCommand {
  import opened Wrappers
  import opened Text
  import opened Args
  import opened Exceptions
  import HelpText
  import opened Parameters
  import Seqs

  /** The declared type of a parameter: a converter applied to its text. */
  datatype PyType = PyStr | PyInt | PyFloat

  function TypeName(t: PyType): string {
    match t
    case PyStr => "str"
    case PyInt => "int"
    case PyFloat => "float"
  }

  /** A converted argument. A float keeps the literal it was read from;
      its binary value is not modelled. */
  datatype PyValue = VStr(s: string) | VInt(i: int) | VFloat(literal: string)

  /** What a command invokes: the terminal's own help listing, or a user
      function known by identity. */
  datatype FuncRef = TerminalHelp | UserFunc(id: string)

  datatype Command = Command(name: string, description: string, params: seq<Param<PyType>>, func: FuncRef)

  // ---- help text ----

  /** `Command.help_statement`, with the Python converters' names. */
  function Help(c: Command): string {
    CommandHelp(c.name, c.description, c.params, TypeName)
  }

  // ---- construction ----

  /** One parameter of an inspected signature. */
  datatype SigArg = SigArg(name: string, annotation: Option<PyType>, hasDefault: bool)

  /** A callable: its `__name__`, signature, docstring ("" when absent) and
      identity. */
  datatype Callable = Callable(fname: string, signature: seq<SigArg>, doc: string, id: FuncRef)

  datatype Obj = Fn(callable: Callable) | NotCallable

  /** The docstring's lines, each stripped of surrounding whitespace. */
  function DocLines(doc: string): (lines: seq<string>)
    ensures |lines| == |SplitLines(doc)|
    ensures forall i :: 0 <= i < |lines| ==> lines[i] == Trim(Python, SplitLines(doc)[i])
  {
    var raw := SplitLines(doc);
    seq(|raw|, i requires 0 <= i < |raw| => Trim(Python, raw[i]))
  }

  /** Index of the first line starting with `key`. */
  function FirstWithPrefix(lines: seq<string>, key: string): (r: Option<nat>)
    ensures r.Some? ==> r.value < |lines| && key <= lines[r.value]
    ensures r.Some? ==> forall j :: 0 <= j < r.value ==> !(key <= lines[j])
    ensures r.None? <==> forall j :: 0 <= j < |lines| ==> !(key <= lines[j])
  {
    if lines == [] then None
    else if key <= lines[0] then Some(0)
    else match FirstWithPrefix(lines[1..], key)
      case None =>
        assert forall j :: 1 <= j < |lines| ==> lines[j] == lines[1..][j - 1];
        None
      case Some(i) => Some(i + 1)
  }

  /** The description inferred for a parameter from the stripped docstring
      lines: the first that starts with `name:`, or "" when none does. */
  function Describe(docLines: seq<string>, name: string): (d: string)
    ensures d != "" ==> name + ":" <= d && d in docLines
    ensures d == "" <==> forall i :: 0 <= i < |docLines| ==> !(name + ":" <= docLines[i])
    ensures d != "" ==> exists i :: (0 <= i < |docLines| && d == docLines[i]
      && forall j :: 0 <= j < i ==> !(name + ":" <= docLines[j]))
  {
    match FirstWithPrefix(docLines, name + ":")
    case None => ""
    case Some(i) => docLines[i]
  }

  /** The signature without its `self` parameter, in order. */
  function NonSelf(sig: seq<SigArg>): (r: seq<SigArg>)
    ensures |r| <= |sig|
    ensures forall a :: a in r <==> a in sig && a.name != "self"
    ensures (forall j :: 0 <= j < |sig| ==> sig[j].name != "self") ==> r == sig
  {
    if sig == [] then []
    else (if sig[0].name == "self" then [] else [sig[0]]) + NonSelf(sig[1..])
  }

  /** Parameters inferred from a signature: one per parameter but `self`,
      in order, typed by its annotation, positional exactly when it has no
      default, neither required nor aliased, described by its docstring
      line. */
  function Infer(sig: seq<SigArg>, docLines: seq<string>): (ps: seq<Param<PyType>>)
    ensures |ps| == |NonSelf(sig)|
    ensures forall i :: 0 <= i < |ps| ==> (ps[i].name == NonSelf(sig)[i].name
      && ps[i].dtype == NonSelf(sig)[i].annotation
      && ps[i].positional == !NonSelf(sig)[i].hasDefault
      && !ps[i].required && ps[i].alias == None
      && ps[i].description == Describe(docLines, NonSelf(sig)[i].name))
  {
    var args := NonSelf(sig);
    seq(|args|, i requires 0 <= i < |args| =>
      Param(args[i].name, args[i].annotation, Describe(docLines, args[i].name), false, None, !args[i].hasDefault))
  }

  /** The aliases in effect, in parameter order. */
  function SetAliases(ps: seq<Param<PyType>>): (aliases: seq<string>)
    ensures forall a :: a in aliases <==> exists i :: 0 <= i < |ps| && AliasSet(ps[i].alias) && ps[i].alias.value == a
  {
    if ps == [] then []
    else
      var rest := SetAliases(ps[1..]);
      assert forall i :: 1 <= i < |ps| ==> ps[i] == ps[1..][i - 1];
      (if AliasSet(ps[0].alias) then [ps[0].alias.value] else []) + rest
  }

  /** The parameters given, or else those inferred from the callable. */
  function ParamsOf(c: Callable, params: Option<seq<Param<PyType>>>): seq<Param<PyType>> {
    if params.Some? then params.value else Infer(c.signature, DocLines(c.doc))
  }

  /** `Command(func, name, description, params)`: a non-callable is
      refused; the name defaults to the function's; without explicit
      parameters they are inferred; duplicate names, then duplicate set
      aliases, are refused. */
  function NewCommand(func: Obj, name: Option<string>, description: string, params: Option<seq<Param<PyType>>>): (r: Result<Command, Exc>)
    ensures func.NotCallable? ==> r == Failure(Exc(ValueError, "func must be callable"))
    ensures r.Success? <==> (func.Fn?
      && Seqs.Distinct(Names(ParamsOf(func.callable, params)))
      && Seqs.Distinct(SetAliases(ParamsOf(func.callable, params))))
    ensures func.Fn? && !Seqs.Distinct(Names(ParamsOf(func.callable, params)))
      ==> r == Failure(Exc(ValueError, "Duplicate parameter names found in command parameters."))
    ensures func.Fn? && Seqs.Distinct(Names(ParamsOf(func.callable, params)))
      && !Seqs.Distinct(SetAliases(ParamsOf(func.callable, params)))
      ==> r == Failure(Exc(ValueError, "Duplicate parameter aliases found in command parameters."))
    ensures r.Success? ==> r.value.name == (if name.Some? && name.value != "" then name.value else func.callable.fname)
    ensures r.Success? ==> r.value.params == (ParamsOf(func.callable, params))
    ensures r.Success? ==> r.value.func == func.callable.id && r.value.description == description
  {
    if func.NotCallable? then Failure(Exc(ValueError, "func must be callable"))
    else
      var c := func.callable;
      var ps := ParamsOf(c, params);
      Seqs.SetOfSize(Names(ps));
      Seqs.SetOfSize(SetAliases(ps));
      if |Seqs.SetOf(Names(ps))| != |ps| then
        Failure(Exc(ValueError, "Duplicate parameter names found in command parameters."))
      else if |Seqs.SetOf(SetAliases(ps))| != |SetAliases(ps)| then
        Failure(Exc(ValueError, "Duplicate parameter aliases found in command parameters."))
      else
        Success(Command(if name.Some? && name.value != "" then name.value else c.fname, description, ps, c.id))
  }

  /** Inference never produces an alias, and produces distinct names when
      the signature's names are distinct, as Python guarantees; so a
      command built by inference from a callable is never refused. */
  lemma InferredCommandAccepted(c: Callable, name: Option<string>, description: string)
    requires Seqs.Distinct(SigNames(c.signature))
    ensures NewCommand(Fn(c), name, description, None).Success?
  {
    var dl := DocLines(c.doc);
    var ps := Infer(c.signature, dl);
    assert ParamsOf(c, None) == ps;
    NonSelfNamesDistinct(c.signature);
    assert Names(ps) == SigNames(NonSelf(c.signature));
    NoAliases(ps);
    assert Seqs.Distinct(SetAliases(ps));
  }

  lemma NoAliases(ps: seq<Param<PyType>>)
    ensures (forall i :: 0 <= i < |ps| ==> ps[i].alias == None) ==> SetAliases(ps) == []
  {
    if SetAliases(ps) != [] {
      var a := SetAliases(ps)[0];
      assert a in SetAliases(ps);
    }
  }

  function SigNames(sig: seq<SigArg>): (ns: seq<string>)
    ensures |ns| == |sig|
    ensures forall i :: 0 <= i < |sig| ==> ns[i] == sig[i].name
  {
    seq(|sig|, i requires 0 <= i < |sig| => sig[i].name)
  }

  lemma {:induction false} NonSelfNamesDistinct(sig: seq<SigArg>)
    requires Seqs.Distinct(SigNames(sig))
    ensures Seqs.Distinct(SigNames(NonSelf(sig)))
  {
    if sig != [] {
      var t := sig[1..];
      assert SigNames(t) == SigNames(sig)[1..];
      Seqs.DistinctCons(SigNames(sig));
      NonSelfNamesDistinct(t);
      var rest := NonSelf(t);
      if sig[0].name != "self" {
        assert NonSelf(sig) == [sig[0]] + rest;
        assert SigNames(NonSelf(sig)) == [sig[0].name] + SigNames(rest);
        assert sig[0].name !in SigNames(rest);
        Seqs.DistinctCons(SigNames(NonSelf(sig)));
      } else {
        assert NonSelf(sig) == rest;
      }
    }
  }

  // ---- the call ----

  /** `str(v)` of a keyword value, as the error message shows it. */
  function ShowKw(v: KwValue): string {
    match v
    case Str(s) => s
    case True => "True"
  }

  /** Applying the declared type to a value; `None` where Python raises
      `ValueError`. `int(True)` is 1 and `float(True)` is 1.0. */
  function Coerce(t: PyType, v: KwValue): Option<PyValue> {
    match (t, v)
    case (PyStr, _) => Some(VStr(ShowKw(v)))
    case (PyInt, True) => Some(VInt(1))
    case (PyInt, Str(s)) => (match PyParseInt(s) case None => None case Some(n) => Some(VInt(n)))
    case (PyFloat, True) => Some(VFloat("1"))
    case (PyFloat, Str(s)) => if IsPyFloatText(s) then Some(VFloat(s)) else None
  }

  /** `str` accepts every value, `int` exactly the integer literals and
      `float` exactly the float literals, each yielding a value of its own
      type. */
  lemma CoerceAccepts(t: PyType, v: KwValue)
    ensures t == PyStr ==> Coerce(t, v) == Some(VStr(ShowKw(v)))
    ensures t == PyInt ==> (Coerce(t, v).Some? <==> v.True? || PyParseInt(v.s).Some?)
    ensures t == PyInt && v.Str? && PyParseInt(v.s).Some? ==> Coerce(t, v) == Some(VInt(PyParseInt(v.s).value))
    ensures t == PyFloat ==> (Coerce(t, v).Some? <==> v.True? || IsPyFloatText(v.s))
    ensures t == PyFloat && v.Str? && IsPyFloatText(v.s) ==> Coerce(t, v) == Some(VFloat(v.s))
  {
  }

  /** Converting the text of an integer with `int` gives that integer back. */
  lemma CoerceShownInt(n: int)
    ensures Coerce(PyInt, Str(ShowInt(n))) == Some(VInt(n))
  {
    ParseShowRoundTrip(n);
  }

  /** `x in kwargs` for an optional alias; `None` is never a key. */
  predicate AliasIn(alias: Option<string>, kw: Kwargs) {
    alias.Some? && alias.value in kw
  }

  /** The keyword half of one loop iteration: the missing-required check,
      then the lookup (alias first when it is set and given) and
      conversion. */
  function KeywordPart(p: Param<PyType>, kw: Kwargs): Result<Option<PyValue>, Exc> {
    if p.required && !p.positional && p.name !in kw && !AliasIn(p.alias, kw) then
      Failure(Exc(ValueError, "Missing required parameter: " + p.name))
    else if p.name in kw || AliasIn(p.alias, kw) then
      var key := if AliasSet(p.alias) && p.alias.value in kw then p.alias.value else p.name;
      if key !in kw then Failure(Exc(KeyError, "'" + key + "'"))
      else match p.dtype
        case None => Failure(Exc(TypeError, "'NoneType' object is not callable"))
        case Some(t) =>
          match Coerce(t, kw[key])
          case None =>
            Failure(Exc(ValueError, "Invalid value for parameter '" + p.name + "': expected "
              + TypeName(t) + ", got " + ShowKw(kw[key])))
          case Some(v) => Success(Some(v))
    else Success(None)
  }

  /** The positional half of one loop iteration: the argument at the
      current position, converted when the parameter is typed. */
  function PositionalPart(p: Param<PyType>, pos: nat, args: seq<string>): Result<Option<PyValue>, Exc> {
    if !p.positional then Success(None)
    else if pos < |args| then
      match p.dtype
      case None => Success(Some(VStr(args[pos])))
      case Some(t) =>
        match Coerce(t, Str(args[pos]))
        case None =>
          Failure(Exc(ValueError, "Invalid value for positional parameter '" + p.name + "': expected "
            + TypeName(t) + ", got " + args[pos]))
        case Some(v) => Success(Some(v))
    else Failure(Exc(ValueError, "Missing required positional parameter: " + p.name))
  }

  /** How many positional parameters precede index `i`. */
  function PosIndex(ps: seq<Param<PyType>>, i: nat): nat
    requires i <= |ps|
  {
    if i == 0 then 0 else PosIndex(ps, i - 1) + (if ps[i - 1].positional then 1 else 0)
  }

  predicate ParamOk(ps: seq<Param<PyType>>, i: nat, args: seq<string>, kw: Kwargs)
    requires i < |ps|
  {
    KeywordPart(ps[i], kw).Success? && PositionalPart(ps[i], PosIndex(ps, i), args).Success?
  }

  /** The exception parameter `i` raises when it is not accepted. */
  function ParamError(ps: seq<Param<PyType>>, i: nat, args: seq<string>, kw: Kwargs): Exc
    requires i < |ps|
    requires !ParamOk(ps, i, args, kw)
  {
    var k := KeywordPart(ps[i], kw);
    if k.Failure? then k.error else PositionalPart(ps[i], PosIndex(ps, i), args).error
  }

  /** The value parameter `i` contributes: its positional argument if it
      has one, else its converted keyword value, if any. */
  function Contribution(ps: seq<Param<PyType>>, i: nat, args: seq<string>, kw: Kwargs): Option<PyValue>
    requires i < |ps|
  {
    var pv := PositionalPart(ps[i], PosIndex(ps, i), args);
    var kv := KeywordPart(ps[i], kw);
    if pv.Success? && pv.value.Some? then pv.value
    else if kv.Success? then kv.value
    else None
  }

  /** The validation loop from parameter `i` on, adding to `acc`. It fails
      with the error of the first parameter not accepted; otherwise each
      name holds the contribution of the last parameter of that name that
      made one. */
  function BindFrom(ps: seq<Param<PyType>>, i: nat, args: seq<string>, kw: Kwargs, acc: map<string, PyValue>)
    : (r: Result<map<string, PyValue>, Exc>)
    requires i <= |ps|
    decreases |ps| - i
    ensures r.Success? <==> forall j :: i <= j < |ps| ==> ParamOk(ps, j, args, kw)
  {
    if i == |ps| then Success(acc)
    else
      var p := ps[i];
      var kv := KeywordPart(p, kw);
      var pv := PositionalPart(p, PosIndex(ps, i), args);
      if kv.Failure? then
        assert !ParamOk(ps, i, args, kw);
        Failure(kv.error)
      else if pv.Failure? then
        assert !ParamOk(ps, i, args, kw);
        Failure(pv.error)
      else
        assert ParamOk(ps, i, args, kw);
        BindFrom(ps, i + 1, args, kw, Store(ps, i, args, kw, acc))
  }
  /** The first parameter from `i` on that is not accepted, or `|ps|`
      when all are. */
  function FirstBad(ps: seq<Param<PyType>>, i: nat, args: seq<string>, kw: Kwargs): (j: nat)
    requires i <= |ps|
    decreases |ps| - i
    ensures i <= j <= |ps|
    ensures forall m :: i <= m < j ==> ParamOk(ps, m, args, kw)
    ensures j < |ps| ==> !ParamOk(ps, j, args, kw)
  {
    if i == |ps| || !ParamOk(ps, i, args, kw) then i else FirstBad(ps, i + 1, args, kw)
  }

  /** A failing loop fails with the error of the first parameter not
      accepted. */
  lemma {:induction false} BindFromError(ps: seq<Param<PyType>>, i: nat, args: seq<string>, kw: Kwargs, acc: map<string, PyValue>)
    requires i <= |ps|
    requires BindFrom(ps, i, args, kw, acc).Failure?
    decreases |ps| - i
    ensures FirstBad(ps, i, args, kw) < |ps|
    ensures BindFrom(ps, i, args, kw, acc).error == ParamError(ps, FirstBad(ps, i, args, kw), args, kw)
  {
    if ParamOk(ps, i, args, kw) {
      BindFromError(ps, i + 1, args, kw, Store(ps, i, args, kw, acc));
    }
  }



  /** Storing parameter `i`'s converted values: the keyword value first,
      then the positional value over it. */
  function Store(ps: seq<Param<PyType>>, i: nat, args: seq<string>, kw: Kwargs, acc: map<string, PyValue>): map<string, PyValue>
    requires i < |ps|
    requires ParamOk(ps, i, args, kw)
  {
    var kv := KeywordPart(ps[i], kw).value;
    var pv := PositionalPart(ps[i], PosIndex(ps, i), args).value;
    var acc1 := if kv.Some? then acc[ps[i].name := kv.value] else acc;
    if pv.Some? then acc1[ps[i].name := pv.value] else acc1
  }

  /** Storing adds the parameter's contribution under its name, if it
      makes one, and changes nothing else. */
  lemma StoreContribution(ps: seq<Param<PyType>>, i: nat, args: seq<string>, kw: Kwargs, acc: map<string, PyValue>)
    requires i < |ps|
    requires ParamOk(ps, i, args, kw)
    ensures var c := Contribution(ps, i, args, kw);
      var m := Store(ps, i, args, kw, acc);
      (c.Some? ==> m == acc[ps[i].name := c.value]) && (c.None? ==> m == acc)
  {
    var kv := KeywordPart(ps[i], kw).value;
    var pv := PositionalPart(ps[i], PosIndex(ps, i), args).value;
    if kv.Some? && pv.Some? {
      assert acc[ps[i].name := kv.value][ps[i].name := pv.value] == acc[ps[i].name := pv.value];
    }
  }

  /** What the validation loop builds: the names are those already
      accumulated and those of contributing parameters. */
  lemma {:induction false} BindFromKeys(ps: seq<Param<PyType>>, i: nat, args: seq<string>, kw: Kwargs, acc: map<string, PyValue>)
    requires i <= |ps|
    requires BindFrom(ps, i, args, kw, acc).Success?
    decreases |ps| - i
    ensures forall k :: (k in BindFrom(ps, i, args, kw, acc).value <==>
      (k in acc || exists j :: i <= j < |ps| && ps[j].name == k && Contribution(ps, j, args, kw).Some?))
  {
    if i < |ps| {
      assert ParamOk(ps, i, args, kw);
      var acc2 := Store(ps, i, args, kw, acc);
      StoreContribution(ps, i, args, kw, acc);
      assert BindFrom(ps, i, args, kw, acc) == BindFrom(ps, i + 1, args, kw, acc2);
      BindFromKeys(ps, i + 1, args, kw, acc2);
    }
  }

  /** Each name holds the contribution of the last parameter of that name
      that made one. */
  lemma {:induction false} BindFromValues(ps: seq<Param<PyType>>, i: nat, args: seq<string>, kw: Kwargs, acc: map<string, PyValue>)
    requires i <= |ps|
    requires BindFrom(ps, i, args, kw, acc).Success?
    decreases |ps| - i
    ensures forall j :: (i <= j < |ps| && Contribution(ps, j, args, kw).Some?
        && (forall n :: j < n < |ps| ==> ps[n].name != ps[j].name)
        ==> (ps[j].name in BindFrom(ps, i, args, kw, acc).value
          && BindFrom(ps, i, args, kw, acc).value[ps[j].name] == Contribution(ps, j, args, kw).value))
  {
    forall j | i <= j < |ps| && Contribution(ps, j, args, kw).Some?
        && (forall n :: j < n < |ps| ==> ps[n].name != ps[j].name)
      ensures ps[j].name in BindFrom(ps, i, args, kw, acc).value
      ensures BindFrom(ps, i, args, kw, acc).value[ps[j].name] == Contribution(ps, j, args, kw).value
    {
      BindFromValue(ps, i, args, kw, acc, j);
    }
  }

  /** The same for one parameter `j`, by induction on where the loop
      starts. */
  lemma {:induction false} BindFromValue(ps: seq<Param<PyType>>, i: nat, args: seq<string>, kw: Kwargs, acc: map<string, PyValue>, j: nat)
    requires i <= j < |ps|
    requires BindFrom(ps, i, args, kw, acc).Success?
    requires Contribution(ps, j, args, kw).Some?
    requires forall n :: j < n < |ps| ==> ps[n].name != ps[j].name
    decreases j - i
    ensures ps[j].name in BindFrom(ps, i, args, kw, acc).value
    ensures BindFrom(ps, i, args, kw, acc).value[ps[j].name] == Contribution(ps, j, args, kw).value
  {
    if j == i {
      BindFromHead(ps, i, args, kw, acc);
    } else {
      BindFromStep(ps, i, args, kw, acc);
      BindFromValue(ps, i + 1, args, kw, Store(ps, i, args, kw, acc), j);
    }
  }

  /** One accepted parameter: the loop continues from the next one with
      the parameter stored. */
  lemma BindFromStep(ps: seq<Param<PyType>>, i: nat, args: seq<string>, kw: Kwargs, acc: map<string, PyValue>)
    requires i < |ps|
    requires BindFrom(ps, i, args, kw, acc).Success?
    ensures ParamOk(ps, i, args, kw)
    ensures BindFrom(ps, i, args, kw, acc) == BindFrom(ps, i + 1, args, kw, Store(ps, i, args, kw, acc))
  {
  }

  /** A contributing parameter whose name no later one reuses keeps its
      contribution to the end. */
  lemma BindFromHead(ps: seq<Param<PyType>>, i: nat, args: seq<string>, kw: Kwargs, acc: map<string, PyValue>)
    requires i < |ps|
    requires BindFrom(ps, i, args, kw, acc).Success?
    requires Contribution(ps, i, args, kw).Some?
    requires forall n :: i < n < |ps| ==> ps[n].name != ps[i].name
    ensures ps[i].name in BindFrom(ps, i, args, kw, acc).value
    ensures BindFrom(ps, i, args, kw, acc).value[ps[i].name] == Contribution(ps, i, args, kw).value
  {
    BindFromStep(ps, i, args, kw, acc);
    var acc2 := Store(ps, i, args, kw, acc);
    StoreContribution(ps, i, args, kw, acc);
    BindFromKeeps(ps, i + 1, args, kw, acc2);
  }

  /** A name no later parameter mentions keeps its accumulated value. */
  lemma {:induction false} BindFromKeeps(ps: seq<Param<PyType>>, i: nat, args: seq<string>, kw: Kwargs, acc: map<string, PyValue>)
    requires i <= |ps|
    requires BindFrom(ps, i, args, kw, acc).Success?
    decreases |ps| - i
    ensures forall k :: (k in acc && (forall j :: i <= j < |ps| ==> ps[j].name != k)
      ==> k in BindFrom(ps, i, args, kw, acc).value && BindFrom(ps, i, args, kw, acc).value[k] == acc[k])
  {
    if i < |ps| {
      assert ParamOk(ps, i, args, kw);
      var acc2 := Store(ps, i, args, kw, acc);
      StoreContribution(ps, i, args, kw, acc);
      assert BindFrom(ps, i, args, kw, acc) == BindFrom(ps, i + 1, args, kw, acc2);
      BindFromKeeps(ps, i + 1, args, kw, acc2);
    }
  }

  /** The outcome of `Command.__call__` short of running the function:
      the help text, or the keyword arguments the function receives. */
  datatype Bound = ShowHelp(text: string) | Invoke(kwargs: map<string, PyValue>)

  /** `Command.__call__(*args, **kwargs)`: a truthy `h` or `help` answers
      with the help statement; otherwise every parameter must be accepted,
      the first one that is not raises, and the function receives exactly
      the contributions of the parameters, under their names. */
  function Call(c: Command, args: seq<string>, kw: Kwargs): (r: Result<Bound, Exc>)
    ensures WantsHelp(kw) ==> r == Success(ShowHelp(Help(c)))
    ensures !WantsHelp(kw) ==> (r.Success? <==> forall j :: 0 <= j < |c.params| ==> ParamOk(c.params, j, args, kw))
    ensures !WantsHelp(kw) && r.Failure? ==> (FirstBad(c.params, 0, args, kw) < |c.params|
      && r.error == ParamError(c.params, FirstBad(c.params, 0, args, kw), args, kw))
    ensures !WantsHelp(kw) && r.Success? ==> r.value.Invoke?
    ensures !WantsHelp(kw) && r.Success? ==> forall k :: (k in r.value.kwargs <==>
      exists j :: 0 <= j < |c.params| && c.params[j].name == k && Contribution(c.params, j, args, kw).Some?)
    ensures !WantsHelp(kw) && r.Success? && Seqs.Distinct(Names(c.params)) ==>
      forall j :: (0 <= j < |c.params| && Contribution(c.params, j, args, kw).Some?
        ==> r.value.kwargs[c.params[j].name] == Contribution(c.params, j, args, kw).value)
  {
    if WantsHelp(kw) then Success(ShowHelp(Help(c)))
    else
      var b := BindFrom(c.params, 0, args, kw, map[]);
      if b.Failure? then
        BindFromError(c.params, 0, args, kw, map[]);
        Failure(b.error)
      else
        BindFromKeys(c.params, 0, args, kw, map[]);
        BindFromValues(c.params, 0, args, kw, map[]);
        DistinctNamesLast(c.params);
        Success(Invoke(b.value))
  }
}
