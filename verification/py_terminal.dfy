/** The Python terminal (backend/terminal/terminal.py): the tokenizer that
    turns an input line into a command word, positional arguments and
    keyword arguments; the command table; and the dispatch of one input
    line to a reply. */
module PyTerminal {
  import opened Wrappers
  import opened Text
  import opened Args
  import opened Exceptions
  import opened OrderedTable
  import opened PyCommand

  // ---- tokenizer ----

  /** `t.split('=', 1)[1]`; only taken of the dashless text of an option
      word holding a `=`, so the text holds one too. */
  function AfterEquals(t: string): string {
    if '=' in t then SplitOnce(t, '=').1 else ""
  }

  /** How `_parse_command` reads one word: a word starting with `-` names
      a keyword; with a `=` the key is the dashless text before the first
      `=` and the text after it is the value. */
  function PyToken(w: string): (t: Token)
    ensures t.text == w && (t.option <==> IsOption(w))
    ensures t.option ==> t.key == OptionKey(w) && (t.inline.Some? <==> '=' in w)
    ensures !t.option ==> t.inline.None?
  {
    if !IsOption(w) then Token(w, false, "", None)
    else Token(w, true, OptionKey(w), if '=' in w then Some(AfterEquals(Dashless(w))) else None)
  }

  /** An option word with a `=` is its key, the `=` and its value, after
      the dashes. */
  lemma PyTokenSplits(w: string)
    requires IsOption(w) && '=' in w
    ensures Dashless(w) == PyToken(w).key + "=" + PyToken(w).inline.value
    ensures '=' !in PyToken(w).key
  {
    EqualsInDashless(w);
  }

  function PyTokens(split: seq<string>): (ts: seq<Token>)
    ensures |ts| == |split|
    ensures forall i :: 0 <= i < |split| ==> ts[i] == PyToken(split[i])
  {
    seq(|split|, i requires 0 <= i < |split| => PyToken(split[i]))
  }

  /** `command_split.index(item)`: the first word from `i` on with the
      text of word `k`. */
  function FirstSame(ts: seq<Token>, i: nat, k: nat): (r: nat)
    requires i <= k < |ts|
    decreases k - i
    ensures i <= r <= k && ts[r].text == ts[k].text
    ensures forall j :: i <= j < r ==> ts[j].text != ts[k].text
  {
    if ts[i].text == ts[k].text then i else FirstSame(ts, i + 1, k)
  }

  /** The value option word `k` gives its key: the text after its `=`;
      else the word after the FIRST word equal to it, when there is one and
      it is not an option; else True. */
  function PyValue(ts: seq<Token>, k: nat): KwValue
    requires k < |ts| && ts[k].option
  {
    if ts[k].inline.Some? then Str(ts[k].inline.value)
    else
      var n := FirstSame(ts, 0, k) + 1;
      if n < |ts| && !ts[n].option then Str(ts[n].text) else True
  }

  /** One option word's effect on the keyword arguments. */
  function SetOption(ts: seq<Token>, k: nat, kw: Kwargs): (r: Kwargs)
    requires k < |ts| && ts[k].option
    ensures r.Keys == kw.Keys + {ts[k].key}
    ensures r[ts[k].key] == PyValue(ts, k)
    ensures forall key :: key in kw && key != ts[k].key ==> r[key] == kw[key]
  {
    kw[ts[k].key := PyValue(ts, k)]
  }

  /** The loop of `_parse_command` over the words after the command word:
      an option word sets its key, any other word is an argument. */
  function PyParseItems(ts: seq<Token>, k: nat, args: seq<string>, kw: Kwargs): (seq<string>, Kwargs)
    requires k <= |ts|
    decreases |ts| - k
  {
    if k == |ts| then (args, kw)
    else if ts[k].option then PyParseItems(ts, k + 1, args, SetOption(ts, k, kw))
    else PyParseItems(ts, k + 1, args + [ts[k].text], kw)
  }

  /** Every word that is not an option becomes an argument, value words
      included. */
  lemma {:induction false} PyParseArgs(ts: seq<Token>, k: nat, args: seq<string>, kw: Kwargs)
    requires k <= |ts|
    decreases |ts| - k
    ensures PyParseItems(ts, k, args, kw).0 == args + NonOptions(ts[k..])
  {
    if k < |ts| {
      NonOptionsStep(ts, k);
      if ts[k].option {
        PyParseArgs(ts, k + 1, args, SetOption(ts, k, kw));
      } else {
        PyParseArgs(ts, k + 1, args + [ts[k].text], kw);
        assert args + [ts[k].text] + NonOptions(ts[k + 1..]) == args + ([ts[k].text] + NonOptions(ts[k + 1..]));
      }
    } else {
      assert ts[k..] == [];
    }
  }

  /** The keys are those already present and those the option words name. */
  lemma {:induction false} PyParseKeys(ts: seq<Token>, k: nat, args: seq<string>, kw: Kwargs)
    requires k <= |ts|
    decreases |ts| - k
    ensures PyParseItems(ts, k, args, kw).1.Keys == kw.Keys + OptionKeys(ts, k)
  {
    if k < |ts| {
      OptionKeysStep(ts, k);
      if ts[k].option {
        PyParseKeys(ts, k + 1, args, SetOption(ts, k, kw));
      } else {
        PyParseKeys(ts, k + 1, args + [ts[k].text], kw);
      }
    }
  }

  /** A key holds the value its last option word gives. */
  lemma {:induction false} PyParseValues(ts: seq<Token>, k: nat, args: seq<string>, kw: Kwargs)
    requires k <= |ts|
    decreases |ts| - k
    ensures forall j :: k <= j < |ts| && ts[j].option && LastOfKey(ts, j) ==>
      (ts[j].key in PyParseItems(ts, k, args, kw).1
        && PyParseItems(ts, k, args, kw).1[ts[j].key] == PyValue(ts, j))
  {
    if k < |ts| {
      if ts[k].option {
        var kw2 := SetOption(ts, k, kw);
        PyParseValues(ts, k + 1, args, kw2);
        PyParseKeeps(ts, k + 1, args, kw2);
      } else {
        PyParseValues(ts, k + 1, args + [ts[k].text], kw);
      }
    }
  }

  /** A key no later option word names keeps its value. */
  lemma {:induction false} PyParseKeeps(ts: seq<Token>, k: nat, args: seq<string>, kw: Kwargs)
    requires k <= |ts|
    decreases |ts| - k
    ensures forall key :: (key in kw && (forall j :: k <= j < |ts| && ts[j].option ==> ts[j].key != key)
      ==> key in PyParseItems(ts, k, args, kw).1 && PyParseItems(ts, k, args, kw).1[key] == kw[key])
  {
    if k < |ts| {
      if ts[k].option {
        PyParseKeeps(ts, k + 1, args, SetOption(ts, k, kw));
      } else {
        PyParseKeeps(ts, k + 1, args + [ts[k].text], kw);
      }
    }
  }

  /** The tokens of `add hello -l fr`. */
  lemma TokensOfAdd()
    ensures PyTokens(["add", "hello", "-l", "fr"]) == [Token("add", false, "", None), Token("hello", false, "", None),
      Token("-l", true, "l", None), Token("fr", false, "", None)]
  {
    ShortOptionKey("-l");
    assert "-l"[1..] == "l";
    assert !IsOption("add") && !IsOption("hello") && !IsOption("fr") by {
      assert "add"[0] != '-' && "hello"[0] != '-' && "fr"[0] != '-';
    }
  }

  /** A value word is also kept as a positional argument. */
  lemma ValueAlsoArgument()
    ensures PyParseItems(PyTokens(["add", "hello", "-l", "fr"]), 1, [], map[]) == (["hello", "fr"], map["l" := Str("fr")])
  {
    TokensOfAdd();
    var ts := PyTokens(["add", "hello", "-l", "fr"]);
    assert FirstSame(ts, 0, 2) == 2;
    var kw := map["l" := Str("fr")];
    assert SetOption(ts, 2, map[]) == kw;
    assert [] + [ts[1].text] == ["hello"] && ["hello"] + [ts[3].text] == ["hello", "fr"];
    assert PyParseItems(ts, 3, ["hello"], kw) == PyParseItems(ts, 4, ["hello", "fr"], kw);
    assert PyParseItems(ts, 2, ["hello"], map[]) == PyParseItems(ts, 3, ["hello"], kw);
    assert PyParseItems(ts, 1, [], map[]) == PyParseItems(ts, 2, ["hello"], map[]);
  }

  /** The tokens of `cmd -a x -a y`. */
  lemma TokensOfRepeat()
    ensures PyTokens(["cmd", "-a", "x", "-a", "y"]) == [Token("cmd", false, "", None), Token("-a", true, "a", None),
      Token("x", false, "", None), Token("-a", true, "a", None), Token("y", false, "", None)]
  {
    ShortOptionKey("-a");
    assert "-a"[1..] == "a";
    assert !IsOption("cmd") && !IsOption("x") && !IsOption("y") by {
      assert "cmd"[0] != '-' && "x"[0] != '-' && "y"[0] != '-';
    }
  }

  /** A repeated option word takes the value after its FIRST occurrence,
      so `-a x -a y` binds `a` to `x`, and both values stay arguments. */
  lemma RepeatedOptionFirstValue()
    ensures PyParseItems(PyTokens(["cmd", "-a", "x", "-a", "y"]), 1, [], map[]) == (["x", "y"], map["a" := Str("x")])
  {
    TokensOfRepeat();
    var ts := PyTokens(["cmd", "-a", "x", "-a", "y"]);
    assert FirstSame(ts, 0, 1) == 1;
    assert FirstSame(ts, 0, 3) == 1;
    var kw := map["a" := Str("x")];
    assert SetOption(ts, 1, map[]) == kw;
    assert SetOption(ts, 3, kw) == kw;
    assert [] + [ts[2].text] == ["x"] && ["x"] + [ts[4].text] == ["x", "y"];
    assert PyParseItems(ts, 4, ["x"], kw) == PyParseItems(ts, 5, ["x", "y"], kw);
    assert PyParseItems(ts, 3, ["x"], kw) == PyParseItems(ts, 4, ["x"], kw);
    assert PyParseItems(ts, 2, [], kw) == PyParseItems(ts, 3, ["x"], kw);
    assert PyParseItems(ts, 1, [], map[]) == PyParseItems(ts, 2, [], kw);
  }

  /** `Terminal._parse_command` */
  function PyTokenize(line: string): ParsedLine {
    var split := Words(Python, line);
    if split == [] then ParsedLine(None, [], map[])
    else
      var r := PyParseItems(PyTokens(split), 1, [], map[]);
      ParsedLine(Some(split[0]), r.0, r.1)
  }

  lemma PyTokenizeCommand(line: string)
    ensures PyTokenize(line).command.None? <==> Words(Python, line) == []
    ensures PyTokenize(line).command.Some? ==> PyTokenize(line).command.value == Words(Python, line)[0]
  {
  }

  /** The command is the first word, and absent only for a blank line; the
      arguments are all later words that do not start with `-`, value
      words included; the keys are those the option words name, each with
      the value its last option word gives. */
  lemma PyTokenizeSpec(line: string)
    ensures var p := PyTokenize(line); var ts := PyTokens(Words(Python, line));
      (p.command.None? <==> IsBlank(Python, line))
      && (p.command.Some? ==> p.args == NonOptions(ts[1..]) && p.kwargs.Keys == OptionKeys(ts, 1))
      && (forall j :: 1 <= j < |ts| && ts[j].option && LastOfKey(ts, j) ==>
        (ts[j].key in p.kwargs && p.kwargs[ts[j].key] == PyValue(ts, j)))
  {
    WordsEmptyIffBlank(Python, line);
    var split := Words(Python, line);
    if split != [] {
      var ts := PyTokens(split);
      PyParseArgs(ts, 1, [], map[]);
      PyParseKeys(ts, 1, [], map[]);
      PyParseValues(ts, 1, [], map[]);
    }
  }

  // ---- the command table ----

  datatype Terminal = Terminal(commands: Table<Command>, prompt: string)

  /** An object handed to `attach_command`. */
  datatype PyObj = CommandObj(command: Command) | OtherObj

  /** The `help` command every terminal installs first; it lists the
      terminal's commands at call time. */
  function HelpCommand(): Command {
    Command("help", "List all available commands.", [], TerminalHelp)
  }

  /** `Terminal.attach_command`: a non-command is refused; a command
      replaces any command of the same name in its place, or is appended. */
  function Attach(t: Terminal, obj: PyObj): (r: Result<Terminal, Exc>)
    ensures obj.OtherObj? ==> r == Failure(Exc(ValueError, "All commands must be instances of Command class."))
    ensures obj.CommandObj? ==> (r.Success? && r.value.prompt == t.prompt
      && Get(r.value.commands, obj.command.name) == Some(obj.command))
    ensures obj.CommandObj? && Has(t.commands, obj.command.name) ==> Keys(r.value.commands) == Keys(t.commands)
    ensures obj.CommandObj? && !Has(t.commands, obj.command.name)
      ==> Keys(r.value.commands) == Keys(t.commands) + [obj.command.name]
  {
    match obj
    case OtherObj => Failure(Exc(ValueError, "All commands must be instances of Command class."))
    case CommandObj(c) =>
      PutSelf(t.commands, c.name, c);
      PutKeys(t.commands, c.name, c);
      Success(Terminal(Put(t.commands, c.name, c), t.prompt))
  }

  /** Attaching each object in turn. */
  function AttachAll(t: Terminal, objs: seq<PyObj>): (r: Result<Terminal, Exc>)
    ensures r.Success? <==> forall i :: 0 <= i < |objs| ==> objs[i].CommandObj?
    ensures r.Failure? ==> r.error == Exc(ValueError, "All commands must be instances of Command class.")
    ensures r.Success? ==> r.value.prompt == t.prompt
    decreases |objs|
  {
    if objs == [] then Success(t)
    else
      match Attach(t, objs[0])
      case Failure(e) => Failure(e)
      case Success(t1) =>
        var r := AttachAll(t1, objs[1..]);
        assert forall i :: 1 <= i < |objs| ==> objs[i] == objs[1..][i - 1];
        r
  }

  /** `Terminal(commands, prompt)` */
  function NewTerminal(objs: seq<PyObj>, prompt: string): Result<Terminal, Exc> {
    AttachAll(Terminal(Table([("help", HelpCommand())]), prompt), objs)
  }

  predicate NoneNamedHelp(objs: seq<PyObj>) {
    forall i :: 0 <= i < |objs| && objs[i].CommandObj? ==> objs[i].command.name != "help"
  }

  /** Attaching keeps `help` first: a new terminal's first command is
      `help`, and it is the built-in one unless a command named `help` was
      attached over it. */
  lemma {:induction false} AttachAllKeepsFirst(t: Terminal, objs: seq<PyObj>)
    requires t.commands.entries != [] && t.commands.entries[0].0 == "help"
    requires AttachAll(t, objs).Success?
    decreases |objs|
    ensures AttachAll(t, objs).value.commands.entries != []
    ensures AttachAll(t, objs).value.commands.entries[0].0 == "help"
    ensures NoneNamedHelp(objs) ==> AttachAll(t, objs).value.commands.entries[0] == t.commands.entries[0]
  {
    if objs != [] {
      var t1 := Attach(t, objs[0]).value;
      var c := objs[0].command;
      match Find(t.commands.entries, c.name) {
        case None =>
        case Some(i) =>
          if i == 0 { assert c.name == "help"; }
      }
      assert forall i :: 1 <= i < |objs| ==> objs[i] == objs[1..][i - 1];
      AttachAllKeepsFirst(t1, objs[1..]);
    }
  }

  lemma NewTerminalHasHelp(objs: seq<PyObj>, prompt: string)
    requires NewTerminal(objs, prompt).Success?
    ensures NewTerminal(objs, prompt).value.commands.entries != []
    ensures NewTerminal(objs, prompt).value.commands.entries[0].0 == "help"
    ensures NoneNamedHelp(objs)
      ==> Get(NewTerminal(objs, prompt).value.commands, "help") == Some(HelpCommand())
  {
    var t0 := Terminal(Table([("help", HelpCommand())]), prompt);
    AttachAllKeepsFirst(t0, objs);
    var t := NewTerminal(objs, prompt).value;
    FindFirst(t.commands.entries, "help", 0);
  }

  /** `Terminal.detach_command`: the name is no longer a command and
      nothing else changes; an absent name changes nothing. */
  function Detach(t: Terminal, name: string): (r: Terminal)
    ensures UniqueKeys(t.commands) ==> UniqueKeys(r.commands) && !Has(r.commands, name)
    ensures !Has(t.commands, name) ==> r == t
    ensures UniqueKeys(t.commands) ==> forall k :: k != name ==> Get(r.commands, k) == Get(t.commands, k)
  {
    RemoveSpec(t.commands, name);
    Terminal(Remove(t.commands, name), t.prompt)
  }

  /** Attaching keeps command names unique. */
  lemma {:induction false} AttachAllUnique(t: Terminal, objs: seq<PyObj>)
    requires UniqueKeys(t.commands)
    requires AttachAll(t, objs).Success?
    decreases |objs|
    ensures UniqueKeys(AttachAll(t, objs).value.commands)
  {
    if objs != [] {
      var c := objs[0].command;
      PutGet(t.commands, c.name, c, c.name);
      assert forall i :: 1 <= i < |objs| ==> objs[i] == objs[1..][i - 1];
      AttachAllUnique(Attach(t, objs[0]).value, objs[1..]);
    }
  }

  /** `Terminal.help_statement`: the help statements of all commands, in
      table order, one after another on separate lines. */
  function TerminalHelpText(t: Terminal): (s: string)
    ensures |t.commands.entries| == 1 ==> s == Help(t.commands.entries[0].1)
    ensures t.commands.entries == [] ==> s == ""
    ensures Laid(s, HelpsOf(Values(t.commands)), "\n")
  {
    JoinIsLaid(HelpsOf(Values(t.commands)), "\n");
    JoinWith(HelpsOf(Values(t.commands)), "\n")
  }

  function HelpsOf(cs: seq<Command>): (hs: seq<string>)
    ensures |hs| == |cs|
    ensures forall i :: 0 <= i < |cs| ==> hs[i] == Help(cs[i])
  {
    if cs == [] then [] else [Help(cs[0])] + HelpsOf(cs[1..])
  }

  // ---- dispatch ----

  /** What a user function does when called: return `None`, a string, a
      built-in sequence (`list`, `tuple`, `deque`), a built-in byte string
      (`bytes`, `bytearray`) or a value of another built-in type, each named
      by its type, or raise. */
  datatype PyReturn =
    | ReturnsNone
    | ReturnsStr(s: string)
    | ReturnsSeq(seqType: string)
    | ReturnsBytes(bytesType: string)
    | ReturnsOther(typeName: string)
    | Raises(e: Exc)

  /** The user functions, by identity; their bodies are not modelled. */
  type Runner = (string, map<string, PyValue>) -> PyReturn

  datatype Reply = Reply(output: string, handled: bool)

  function ErrorPrefix(command: string): string {
    "Error executing command '" + command + "': "
  }

  function ErrorText(command: string, msg: string): string {
    ErrorPrefix(command) + msg + "\n"
  }

  /** How a command's result becomes the reply text: nothing for `None` or
      `""`, a string and a newline, and otherwise the error line of the
      `TypeError` that `result + "\n"` raises, in the wording of the type's
      own `+`. */
  function ResultText(command: string, r: PyReturn): (out: string)
    ensures out == "" <==> r.ReturnsNone? || r == ReturnsStr("")
    ensures out != "" ==> out[|out| - 1] == '\n'
    ensures r.ReturnsStr? && r.s != "" ==> out[..|out| - 1] == r.s
    ensures r.Raises? ==> out == ErrorText(command, r.e.msg)
    ensures !r.ReturnsNone? && !r.ReturnsStr? ==> ErrorPrefix(command) <= out
  {
    match r
    case ReturnsNone => ""
    case ReturnsStr(s) => if s == "" then "" else s + "\n"
    case ReturnsSeq(tn) => ErrorText(command, "can only concatenate " + tn + " (not \"str\") to " + tn)
    case ReturnsBytes(tn) => ErrorText(command, "can't concat str to " + tn)
    case ReturnsOther(tn) => ErrorText(command, "unsupported operand type(s) for +: '" + tn + "' and 'str'")
    case Raises(e) => ErrorText(command, e.msg)
  }

  const SelfTwice := "Command.__call__() got multiple values for argument 'self'"

  /** Running a found command: the call is `command(*args, **kwargs)`, so
      a keyword named `self` collides with the method's own parameter. */
  function Execute(t: Terminal, run: Runner, name: string, c: Command, args: seq<string>, kw: Kwargs): string {
    if "self" in kw then ErrorText(name, SelfTwice)
    else match Call(c, args, kw)
      case Failure(e) => ErrorText(name, e.msg)
      case Success(ShowHelp(text)) => ResultText(name, ReturnsStr(text))
      case Success(Invoke(m)) =>
        match c.func
        case TerminalHelp => ResultText(name, ReturnsStr(TerminalHelpText(t)))
        case UserFunc(id) => ResultText(name, run(id, m))
  }

  /** `Terminal.handle_input`: the reply and the command history after it.
      A blank line is answered with nothing and not recorded; any other
      line is recorded once. Every reply is marked handled. */
  function HandleInput(t: Terminal, run: Runner, input: string, history: seq<string>): (r: (Reply, seq<string>))
    ensures r.0.handled
    ensures IsBlank(Python, input) ==> r == (Reply("", true), history)
    ensures !IsBlank(Python, input) ==> r.1 == history + [input]
  {
    TrimEmptyIffBlank(Python, input);
    if Trim(Python, input) == "" then (Reply("", true), history)
    else (Reply(Dispatch(t, run, input), true), history + [input])
  }

  /** The reply text for a line that is not blank. */
  function Dispatch(t: Terminal, run: Runner, input: string): string {
    var p := PyTokenize(input);
    if p.command.None? || !Has(t.commands, p.command.value) then "Command not found.\n"
    else Execute(t, run, p.command.value, Get(t.commands, p.command.value).value, p.args, p.kwargs)
  }

  /** The reply to a line that is not blank: "Command not found." for an
      unknown command word; the help statement for a truthy `h`/`help`;
      the error line for a call that raises; otherwise nothing or the
      result and a newline. */
  lemma DispatchOutcomes(t: Terminal, run: Runner, input: string)
    requires Words(Python, input) != []
    ensures var out := Dispatch(t, run, input);
      var p := PyTokenize(input);
      var name := Words(Python, input)[0];
      (out == "" || out[|out| - 1] == '\n')
      && (!Has(t.commands, name) ==> out == "Command not found.\n")
      && (Has(t.commands, name) && "self" !in p.kwargs && WantsHelp(p.kwargs)
        ==> out == Help(Get(t.commands, name).value) + "\n")
      && (Has(t.commands, name) && "self" !in p.kwargs
        && Call(Get(t.commands, name).value, p.args, p.kwargs).Failure?
        ==> out == ErrorText(name, Call(Get(t.commands, name).value, p.args, p.kwargs).error.msg))
  {
    PyTokenizeCommand(input);
    var p := PyTokenize(input);
    var name := Words(Python, input)[0];
    var out := Dispatch(t, run, input);
    if Has(t.commands, name) {
      var c := Get(t.commands, name).value;
      HelpNotEmpty(c);
      assert out == Execute(t, run, name, c, p.args, p.kwargs);
      ExecuteOutcomes(t, run, name, c, p.args, p.kwargs);
    }
  }

  /** The reply to a line naming a known command: the `self` clash, or
      what the command's function returns or raises. */
  lemma DispatchResults(t: Terminal, run: Runner, input: string)
    requires Words(Python, input) != []
    ensures var out := Dispatch(t, run, input);
      var p := PyTokenize(input);
      var name := Words(Python, input)[0];
      Has(t.commands, name) ==>
        var c := Get(t.commands, name).value;
        ("self" in p.kwargs ==> out == ErrorText(name, SelfTwice))
        && (("self" !in p.kwargs && Call(c, p.args, p.kwargs).Success? && Call(c, p.args, p.kwargs).value.Invoke?
             && c.func.UserFunc?) ==>
            var res := run(c.func.id, Call(c, p.args, p.kwargs).value.kwargs);
            (res.ReturnsNone? || res == ReturnsStr("") ==> out == "")
            && (res.ReturnsStr? && res.s != "" ==> out == res.s + "\n")
            && (res.Raises? ==> out == ErrorText(name, res.e.msg)))
  {
    PyTokenizeCommand(input);
    var p := PyTokenize(input);
    var name := Words(Python, input)[0];
    if Has(t.commands, name) {
      var c := Get(t.commands, name).value;
      assert Dispatch(t, run, input) == Execute(t, run, name, c, p.args, p.kwargs);
      ExecuteOutcomes(t, run, name, c, p.args, p.kwargs);
    }
  }

  /** Running a found command: a `self` keyword clashes first; then help,
      a binding error, or the function's outcome decides the reply. */
  lemma ExecuteOutcomes(t: Terminal, run: Runner, name: string, c: Command, args: seq<string>, kw: Kwargs)
    ensures var out := Execute(t, run, name, c, args, kw);
      (out == "" || out[|out| - 1] == '\n')
      && ("self" in kw ==> out == ErrorText(name, SelfTwice))
      && ("self" !in kw && WantsHelp(kw) ==> out == Help(c) + "\n")
      && ("self" !in kw && Call(c, args, kw).Failure? ==> out == ErrorText(name, Call(c, args, kw).error.msg))
      && ("self" !in kw && Call(c, args, kw).Success? && Call(c, args, kw).value.Invoke? && c.func.UserFunc? ==>
            var res := run(c.func.id, Call(c, args, kw).value.kwargs);
            (res.ReturnsNone? || res == ReturnsStr("") ==> out == "")
            && (res.ReturnsStr? && res.s != "" ==> out == res.s + "\n")
            && (res.Raises? ==> out == ErrorText(name, res.e.msg)))
      && ("self" !in kw && Call(c, args, kw).Success? && Call(c, args, kw).value.Invoke? && c.func.TerminalHelp? ==>
            out == (if TerminalHelpText(t) == "" then "" else TerminalHelpText(t) + "\n"))
  {
    HelpNotEmpty(c);
    var out := Execute(t, run, name, c, args, kw);
    if "self" !in kw {
      match Call(c, args, kw) {
        case Failure(e) =>
        case Success(ShowHelp(text)) =>
        case Success(Invoke(m)) =>
          match c.func {
            case TerminalHelp =>
            case UserFunc(id) =>
              var res := run(id, m);
              assert out == ResultText(name, res);
          }
      }
    }
  }

  lemma HelpNotEmpty(c: Command)
    ensures Help(c) != ""
  {
    assert |c.name + " - " + c.description| >= 3;
  }

  /** `default_terminal`: `clear` is attached twice, the second replacing
      the first in its place, so the table lists help, clear, status. */
  function DefaultTerminal(): Result<Terminal, Exc> {
    NewTerminal([
      CommandObj(Command("clear", "Clears the terminal output.", [], UserFunc("clear"))),
      CommandObj(Command("status", "Returns a message indicating terminal access is available.", [], UserFunc("status"))),
      CommandObj(Command("clear", "Clears the terminal output.", [], UserFunc("clear")))],
      "user@terminal:~$ ")
  }

  lemma DefaultTerminalCommands()
    ensures DefaultTerminal().Success?
    ensures Keys(DefaultTerminal().value.commands) == ["help", "clear", "status"]
  {
    var clear := CommandObj(Command("clear", "Clears the terminal output.", [], UserFunc("clear")));
    var status := CommandObj(Command("status", "Returns a message indicating terminal access is available.", [], UserFunc("status")));
    var objs := [clear, status, clear];
    var t0 := Terminal(Table([("help", HelpCommand())]), "user@terminal:~$ ");
    assert DefaultTerminal() == AttachAll(t0, objs);
    var t1 := Attach(t0, clear).value;
    var t2 := Attach(t1, status).value;
    var t3 := Attach(t2, clear).value;
    DefaultKeys(t0, clear.command, status.command);
    AttachAllStep(t0, objs);
    assert objs[1..] == [status, clear];
    AttachAllStep(t1, [status, clear]);
    assert [status, clear][1..] == [clear];
    AttachAllStep(t2, [clear]);
    assert [clear][1..] == [];
  }

  /** The keys after attaching `clear`, `status` and `clear` again to a
      terminal holding only `help`. */
  lemma DefaultKeys(t0: Terminal, clear: Command, status: Command)
    requires Keys(t0.commands) == ["help"]
    requires clear.name == "clear" && status.name == "status"
    ensures var t1 := Attach(t0, CommandObj(clear)).value;
      var t2 := Attach(t1, CommandObj(status)).value;
      Keys(Attach(t2, CommandObj(clear)).value.commands) == ["help", "clear", "status"]
  {
    assert !Has(t0.commands, "clear") by {
      assert Keys(t0.commands)[0] != "clear";
    }
    var t1 := Attach(t0, CommandObj(clear)).value;
    assert Keys(t1.commands) == ["help", "clear"];
    assert !Has(t1.commands, "status") by {
      assert Keys(t1.commands)[0] != "status" && Keys(t1.commands)[1] != "status";
    }
    var t2 := Attach(t1, CommandObj(status)).value;
    assert Keys(t2.commands) == ["help", "clear", "status"];
    assert Has(t2.commands, "clear") by {
      assert Keys(t2.commands)[1] == "clear";
    }
  }

  /** Attaching a command first, then the rest. */
  lemma AttachAllStep(t: Terminal, objs: seq<PyObj>)
    requires objs != [] && objs[0].CommandObj?
    ensures AttachAll(t, objs) == AttachAll(Attach(t, objs[0]).value, objs[1..])
  {
  }
}
