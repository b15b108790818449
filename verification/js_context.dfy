/** A JavaScript terminal context (frontend/src/terminal/TerminalContext.js):
    its command table, the tokenizer that consumes an option's value token,
    the handling of one command line and of Ctrl+C as a list of effects on
    the terminal component, and `createRelation`, which links a context to
    a child sub-shell. */
module JsContext {
  import opened Wrappers
  import opened Text
  import opened Args
  import opened OrderedTable
  import opened JsCommand

  // ---- tokenizer ----

  /** `t.split('=', 2)[1]`; only taken of the dashless text of an option
      word holding a `=`, so the text holds one too. */
  function SecondPiece(t: string): string {
    if '=' in t then SplitLimit2(t, '=').1 else ""
  }

  /** How `_parseCommand` reads one word: a word starting with `-` names a
      keyword; with a `=` the key is the dashless text before the first
      `=` and the value the text between it and any second `=`. */
  function JsToken(w: string): (t: Token)
    ensures t.text == w && (t.option <==> IsOption(w))
    ensures t.option ==> t.key == OptionKey(w) && (t.inline.Some? <==> '=' in w)
    ensures !t.option ==> t.inline.None?
  {
    if !IsOption(w) then Token(w, false, "", None)
    else Token(w, true, OptionKey(w), if '=' in w then Some(SecondPiece(Dashless(w))) else None)
  }

  /** An option word with a `=` starts, after its dashes, with its key,
      the `=` and its value, and the value holds no `=`. */
  lemma JsTokenSplits(w: string)
    requires IsOption(w) && '=' in w
    ensures JsToken(w).key + "=" + JsToken(w).inline.value <= Dashless(w)
    ensures '=' !in JsToken(w).key && '=' !in JsToken(w).inline.value
  {
    EqualsInDashless(w);
    SplitLimit2Parts(Dashless(w), '=');
  }

  function JsTokens(split: seq<string>): (ts: seq<Token>)
    ensures |ts| == |split|
    ensures forall i :: 0 <= i < |split| ==> ts[i] == JsToken(split[i])
  {
    seq(|split|, i requires 0 <= i < |split| => JsToken(split[i]))
  }

  /** The value option word `j` gives its key: the text after its `=`;
      else the next word, when there is one and it is not an option; else
      true. */
  function JsValue(ts: seq<Token>, j: nat): KwValue
    requires j < |ts| && ts[j].option
  {
    if ts[j].inline.Some? then Str(ts[j].inline.value)
    else if j + 1 < |ts| && !ts[j + 1].option then Str(ts[j + 1].text)
    else True
  }

  /** Word `j` is the value of the option word before it, so the loop
      steps over it. */
  predicate Consumed(ts: seq<Token>, j: nat)
    requires j < |ts|
  {
    j >= 2 && ts[j - 1].option && ts[j - 1].inline.None? && !ts[j].option
  }

  /** Whether the option word at `j` takes the word after it. */
  predicate TakesNext(ts: seq<Token>, j: nat)
    requires j < |ts|
  {
    ts[j].option && ts[j].inline.None? && j + 1 < |ts| && !ts[j + 1].option
  }

  /** Where the loop goes after the option word at `i`. */
  function Next(ts: seq<Token>, i: nat): (n: nat)
    requires i < |ts| && ts[i].option
    ensures i < n <= |ts|
  {
    if TakesNext(ts, i) then i + 2 else i + 1
  }

  function SetJsOption(ts: seq<Token>, j: nat, kw: Kwargs): (r: Kwargs)
    requires j < |ts| && ts[j].option
    ensures r.Keys == kw.Keys + {ts[j].key}
    ensures r[ts[j].key] == JsValue(ts, j)
    ensures forall key :: key in kw && key != ts[j].key ==> r[key] == kw[key]
  {
    kw[ts[j].key := JsValue(ts, j)]
  }

  /** The loop of `_parseCommand` from word `i`: an option word sets its
      key, and a value-taking one also steps over its value; any other
      word is an argument. */
  function JsParseItems(ts: seq<Token>, i: nat, args: seq<string>, kw: Kwargs): (seq<string>, Kwargs)
    requires i <= |ts|
    decreases |ts| - i
  {
    if i == |ts| then (args, kw)
    else if ts[i].option then JsParseItems(ts, Next(ts, i), args, SetJsOption(ts, i, kw))
    else JsParseItems(ts, i + 1, args + [ts[i].text], kw)
  }

  /** The texts of the words from `i` on that are neither options nor
      consumed values. */
  function FreeTokens(ts: seq<Token>, i: nat): (r: seq<string>)
    requires i <= |ts|
    decreases |ts| - i
  {
    if i == |ts| then []
    else (if ts[i].option || Consumed(ts, i) then [] else [ts[i].text]) + FreeTokens(ts, i + 1)
  }

  /** The arguments are exactly the words that neither name a keyword nor
      were taken as a value. */
  lemma {:induction false} JsParseArgs(ts: seq<Token>, i: nat, args: seq<string>, kw: Kwargs)
    requires 1 <= i <= |ts|
    requires i < |ts| ==> !Consumed(ts, i)
    decreases |ts| - i
    ensures JsParseItems(ts, i, args, kw).0 == args + FreeTokens(ts, i)
  {
    if i < |ts| {
      if ts[i].option {
        assert FreeTokens(ts, i) == FreeTokens(ts, i + 1);
        if TakesNext(ts, i) {
          assert Consumed(ts, i + 1);
          assert FreeTokens(ts, i + 1) == FreeTokens(ts, i + 2);
        }
        JsParseArgs(ts, Next(ts, i), args, SetJsOption(ts, i, kw));
      } else {
        JsParseArgs(ts, i + 1, args + [ts[i].text], kw);
        assert args + [ts[i].text] + FreeTokens(ts, i + 1) == args + ([ts[i].text] + FreeTokens(ts, i + 1));
      }
    }
  }

  /** The keys are those already present and those the option words name;
      a consumed value never starts with `-`, so every option word counts. */
  lemma {:induction false} JsParseKeys(ts: seq<Token>, i: nat, args: seq<string>, kw: Kwargs)
    requires i <= |ts|
    decreases |ts| - i
    ensures JsParseItems(ts, i, args, kw).1.Keys == kw.Keys + OptionKeys(ts, i)
  {
    if i < |ts| {
      OptionKeysStep(ts, i);
      if ts[i].option {
        if TakesNext(ts, i) {
          OptionKeysStep(ts, i + 1);
        }
        JsParseKeys(ts, Next(ts, i), args, SetJsOption(ts, i, kw));
      } else {
        JsParseKeys(ts, i + 1, args + [ts[i].text], kw);
      }
    }
  }

  /** A key holds the value its last option word gives. */
  lemma {:induction false} JsParseValues(ts: seq<Token>, i: nat, args: seq<string>, kw: Kwargs)
    requires i <= |ts|
    decreases |ts| - i
    ensures forall j :: i <= j < |ts| && ts[j].option && LastOfKey(ts, j) ==>
      (ts[j].key in JsParseItems(ts, i, args, kw).1
        && JsParseItems(ts, i, args, kw).1[ts[j].key] == JsValue(ts, j))
  {
    if i < |ts| {
      if ts[i].option {
        var kw2 := SetJsOption(ts, i, kw);
        JsParseValues(ts, Next(ts, i), args, kw2);
        JsParseKeeps(ts, Next(ts, i), args, kw2);
      } else {
        JsParseValues(ts, i + 1, args + [ts[i].text], kw);
      }
    }
  }

  /** A key no later option word names keeps its value. */
  lemma {:induction false} JsParseKeeps(ts: seq<Token>, i: nat, args: seq<string>, kw: Kwargs)
    requires i <= |ts|
    decreases |ts| - i
    ensures forall key :: (key in kw && (forall j :: i <= j < |ts| && ts[j].option ==> ts[j].key != key)
      ==> key in JsParseItems(ts, i, args, kw).1 && JsParseItems(ts, i, args, kw).1[key] == kw[key])
  {
    if i < |ts| {
      if ts[i].option {
        JsParseKeeps(ts, Next(ts, i), args, SetJsOption(ts, i, kw));
      } else {
        JsParseKeeps(ts, i + 1, args + [ts[i].text], kw);
      }
    }
  }

  /** `_parseCommand`: `commandStr.trim().split(/\s+/)`, the first piece as
      the command (`null` when it is empty), the loop over the rest. */
  function JsTokenize(line: string): ParsedLine {
    var split := JsTrimSplit(line);
    var command := if split[0] == "" then None else Some(split[0]);
    if |split| == 1 then ParsedLine(command, [], map[])
    else
      var r := JsParseItems(JsTokens(split), 1, [], map[]);
      ParsedLine(command, r.0, r.1)
  }

  /** The command is the first word, and absent only for a blank line; the
      arguments are the free later words; the keys are those the option
      words name, each with the value its last option word gives. */
  lemma JsTokenizeSpec(line: string)
    ensures var p := JsTokenize(line); var split := Words(JavaScript, line); var ts := JsTokens(split);
      (p.command.None? <==> IsBlank(JavaScript, line))
      && (p.command.Some? ==> (p.command.value == split[0] && p.args == FreeTokens(ts, 1)
        && p.kwargs.Keys == OptionKeys(ts, 1)))
      && (p.command.Some? ==> forall j :: 1 <= j < |ts| && ts[j].option && LastOfKey(ts, j) ==>
        (ts[j].key in p.kwargs && p.kwargs[ts[j].key] == JsValue(ts, j)))
  {
    var split := Words(JavaScript, line);
    WordsEmptyIffBlank(JavaScript, line);
    if !IsBlank(JavaScript, line) {
      assert split[0] != "";
      if |split| > 1 {
        var ts := JsTokens(split);
        JsParseArgs(ts, 1, [], map[]);
        JsParseKeys(ts, 1, [], map[]);
        JsParseValues(ts, 1, [], map[]);
      }
    }
  }

  /** The command alone: the first word, absent only for a blank line. */
  lemma JsCommandWord(line: string)
    ensures JsTokenize(line).command.None? <==> IsBlank(JavaScript, line)
    ensures JsTokenize(line).command.Some? ==> JsTokenize(line).command.value == Words(JavaScript, line)[0]
  {
    WordsEmptyIffBlank(JavaScript, line);
    if !IsBlank(JavaScript, line) {
      assert Words(JavaScript, line)[0] != "";
    }
  }

  /** The tokens of `add hello -l fr`. */
  lemma TokensOfAdd()
    ensures JsTokens(["add", "hello", "-l", "fr"]) == [Token("add", false, "", None), Token("hello", false, "", None),
      Token("-l", true, "l", None), Token("fr", false, "", None)]
  {
    ShortOptionKey("-l");
    assert "-l"[1..] == "l";
    assert !IsOption("add") && !IsOption("hello") && !IsOption("fr") by {
      assert "add"[0] != '-' && "hello"[0] != '-' && "fr"[0] != '-';
    }
  }

  /** `add hello -l fr`: the value word `fr` is taken by `-l` and is not
      also an argument. */
  lemma ValueNotArgument()
    ensures JsParseItems(JsTokens(["add", "hello", "-l", "fr"]), 1, [], map[]) == (["hello"], map["l" := Str("fr")])
  {
    TokensOfAdd();
    var ts := JsTokens(["add", "hello", "-l", "fr"]);
    assert TakesNext(ts, 2);
    var kw := map["l" := Str("fr")];
    assert SetJsOption(ts, 2, map[]) == kw;
    assert JsParseItems(ts, 2, ["hello"], map[]) == JsParseItems(ts, 4, ["hello"], kw);
    assert [] + [ts[1].text] == ["hello"];
    assert JsParseItems(ts, 1, [], map[]) == JsParseItems(ts, 2, ["hello"], map[]);
  }

  // ---- the context ----

  datatype Context = Context(prompt: string, commands: Table<Command>)

  /** An object handed to `attachCommand`. */
  datatype JsObj = CommandObj(command: Command) | OtherObj

  function HelpCommand(): Command {
    Command("help", "List all available commands.", [], ContextHelp)
  }

  const NotACommand := "All commands must be instances of Command class."

  /** `attachCommand`: a non-command throws; a command replaces any command
      of the same name in its place, or is appended. */
  function Attach(ctx: Context, obj: JsObj): (r: Result<Context, string>)
    ensures obj.OtherObj? ==> r == Failure(NotACommand)
    ensures obj.CommandObj? ==> (r.Success? && r.value.prompt == ctx.prompt
      && Get(r.value.commands, obj.command.name) == Some(obj.command))
    ensures obj.CommandObj? && Has(ctx.commands, obj.command.name) ==> Keys(r.value.commands) == Keys(ctx.commands)
    ensures obj.CommandObj? && !Has(ctx.commands, obj.command.name)
      ==> Keys(r.value.commands) == Keys(ctx.commands) + [obj.command.name]
  {
    match obj
    case OtherObj => Failure(NotACommand)
    case CommandObj(c) =>
      PutSelf(ctx.commands, c.name, c);
      PutKeys(ctx.commands, c.name, c);
      Success(Context(ctx.prompt, Put(ctx.commands, c.name, c)))
  }

  /** Attaching a command leaves every other name as it was. */
  lemma AttachOthers(ctx: Context, c: Command)
    ensures forall k :: k != c.name ==> Get(Attach(ctx, CommandObj(c)).value.commands, k) == Get(ctx.commands, k)
  {
    PutOthers(ctx.commands, c.name, c);
  }

  function AttachAll(ctx: Context, objs: seq<JsObj>): (r: Result<Context, string>)
    ensures r.Success? <==> forall i :: 0 <= i < |objs| ==> objs[i].CommandObj?
    ensures r.Failure? ==> r.error == NotACommand
    ensures r.Success? ==> r.value.prompt == ctx.prompt
    decreases |objs|
  {
    if objs == [] then Success(ctx)
    else
      match Attach(ctx, objs[0])
      case Failure(e) => Failure(e)
      case Success(c1) =>
        var r := AttachAll(c1, objs[1..]);
        assert forall i :: 1 <= i < |objs| ==> objs[i] == objs[1..][i - 1];
        r
  }

  /** `new TerminalContext(prompt, commands)`: `help` first, then each
      command in turn. */
  function NewContext(prompt: string, objs: seq<JsObj>): Result<Context, string> {
    AttachAll(Context(prompt, Table([("help", HelpCommand())])), objs)
  }

  /** Attaching keeps `help` first, so every context lists it first. */
  lemma {:induction false} AttachAllKeepsHelp(ctx: Context, objs: seq<JsObj>)
    requires ctx.commands.entries != [] && ctx.commands.entries[0].0 == "help"
    requires AttachAll(ctx, objs).Success?
    decreases |objs|
    ensures AttachAll(ctx, objs).value.commands.entries != []
    ensures AttachAll(ctx, objs).value.commands.entries[0].0 == "help"
  {
    if objs != [] {
      var c1 := Attach(ctx, objs[0]).value;
      var c := objs[0].command;
      match Find(ctx.commands.entries, c.name) {
        case None =>
        case Some(i) =>
          if i == 0 { assert c.name == "help"; }
      }
      assert forall i :: 1 <= i < |objs| ==> objs[i] == objs[1..][i - 1];
      AttachAllKeepsHelp(c1, objs[1..]);
    }
  }

  lemma NewContextHasHelp(prompt: string, objs: seq<JsObj>)
    requires NewContext(prompt, objs).Success?
    ensures |Keys(NewContext(prompt, objs).value.commands)| > 0
    ensures Keys(NewContext(prompt, objs).value.commands)[0] == "help"
    ensures Has(NewContext(prompt, objs).value.commands, "help")
  {
    AttachAllKeepsHelp(Context(prompt, Table([("help", HelpCommand())])), objs);
    var t := NewContext(prompt, objs).value.commands;
    FindFirst(t.entries, "help", 0);
  }

  /** `detachCommand`: the name is no longer a command and nothing else
      changes; an absent name changes nothing. */
  function Detach(ctx: Context, name: string): (r: Context)
    ensures UniqueKeys(ctx.commands) ==> UniqueKeys(r.commands) && !Has(r.commands, name)
    ensures !Has(ctx.commands, name) ==> r == ctx
    ensures UniqueKeys(ctx.commands) ==> forall k :: k != name ==> Get(r.commands, k) == Get(ctx.commands, k)
  {
    RemoveSpec(ctx.commands, name);
    Context(ctx.prompt, Remove(ctx.commands, name))
  }

  /** `helpStatement`: every command's help, in table order, on separate
      lines. */
  function ContextHelpText(ctx: Context): (s: string)
    ensures |ctx.commands.entries| == 1 ==> s == Help(ctx.commands.entries[0].1)
    ensures ctx.commands.entries == [] ==> s == ""
    ensures Laid(s, HelpsOf(Values(ctx.commands)), "\n")
  {
    JoinIsLaid(HelpsOf(Values(ctx.commands)), "\n");
    JoinWith(HelpsOf(Values(ctx.commands)), "\n")
  }

  function HelpsOf(cs: seq<Command>): (hs: seq<string>)
    ensures |hs| == |cs|
    ensures forall i :: 0 <= i < |cs| ==> hs[i] == Help(cs[i])
  {
    if cs == [] then [] else [Help(cs[0])] + HelpsOf(cs[1..])
  }

  // ---- handling a line ----

  /** What a context asks of the terminal component, in order. */
  datatype Effect =
    | Out(text: string)
    | ClearInput(postfix: string)
    | SetWaiting(waiting: bool)
    | PushContext(id: string)
    | PopContext
    | ClearTranscript

  /** What a user function does: the effects it has, then possibly a
      throw, shown as `${e}`. */
  datatype Run = Run(effects: seq<Effect>, thrown: Option<string>)

  /** The user functions, by identity; their bodies are not modelled. */
  type Runner = (string, map<string, Arg>) -> Run

  /** Running a command's function with the bound keyword object. */
  function RunFunc(ctx: Context, run: Runner, f: FuncRef, m: map<string, Arg>): Run {
    match f
    case ContextHelp => Run([Out(ContextHelpText(ctx)), Out("\n")], None)
    case UserFunc(id) => run(id, m)
    case EnterChild(child, welcome) => Run([PushContext(child), Out(welcome), Out("\n")], None)
    case ExitContext => Run([PopContext, Out("Bye!\n")], None)
  }

  function ErrorText(command: string, shown: string): string {
    "Error executing command '" + command + "': " + shown + "\n"
  }

  /** The effects after `setWaiting(true)`: the call, then clearing the
      waiting flag, with the error line first when something threw. A
      thrown `Error` shows as `Error: ` and its message. */
  function AfterCall(ctx: Context, run: Runner, name: string, c: Command, args: seq<string>, kw: Kwargs): seq<Effect> {
    var split := SplitCallArgs(Texts(args) + [JObj(kw)]);
    match Call(c, split.0, split.1)
    case Failure(msg) => [Out(ErrorText(name, "Error: " + msg)), SetWaiting(false)]
    case Success(ShowHelp(_)) => [SetWaiting(false)]
    case Success(Invoke(m)) =>
      var r := RunFunc(ctx, run, c.func, m);
      r.effects + (if r.thrown.Some? then [Out(ErrorText(name, r.thrown.value)), SetWaiting(false)] else [SetWaiting(false)])
  }

  lemma AfterCallEnds(ctx: Context, run: Runner, name: string, c: Command, args: seq<string>, kw: Kwargs)
    ensures var es := AfterCall(ctx, run, name, c, args, kw); es != [] && es[|es| - 1] == SetWaiting(false)
  {
    var split := SplitCallArgs(Texts(args) + [JObj(kw)]);
    var r := Call(c, split.0, split.1);
    if r.Success? && r.value.Invoke? {
      var run1 := RunFunc(ctx, run, c.func, r.value.kwargs);
      var last := if run1.thrown.Some? then [Out(ErrorText(name, run1.thrown.value)), SetWaiting(false)] else [SetWaiting(false)];
      assert AfterCall(ctx, run, name, c, args, kw) == run1.effects + last;
    }
  }

  /** `handleCommand`: a blank line does nothing; an unknown command is
      reported; a known one prints its help first when `help` or `h` is
      truthy, then is called with the waiting flag set around the call. */
  function HandleCommand(ctx: Context, run: Runner, input: string): seq<Effect> {
    var p := JsTokenize(input);
    if IsBlank(JavaScript, input) || p.command.None? then []
    else if !Has(ctx.commands, p.command.value) then [Out("Command not found.\n")]
    else
      var name := p.command.value;
      var c := Get(ctx.commands, name).value;
      (if WantsHelp(p.kwargs) then [Out(Help(c)), Out("\n")] else [])
      + [SetWaiting(true)] + AfterCall(ctx, run, name, c, p.args, p.kwargs)
  }

  /** The shape of `handleCommand` for a known command. */
  lemma HandleFound(ctx: Context, run: Runner, input: string)
    requires JsTokenize(input).command.Some? && Has(ctx.commands, JsTokenize(input).command.value)
    ensures var p := JsTokenize(input); var c := Get(ctx.commands, p.command.value).value;
      HandleCommand(ctx, run, input) == (if WantsHelp(p.kwargs) then [Out(Help(c)), Out("\n")] else [])
        + [SetWaiting(true)] + AfterCall(ctx, run, p.command.value, c, p.args, p.kwargs)
  {
    JsCommandWord(input);
  }

  /** A parameterless command called without asking for help runs its
      function with no keyword arguments. */
  lemma CallParameterless(ctx: Context, run: Runner, name: string, c: Command, args: seq<string>, kw: Kwargs)
    requires c.params == [] && !WantsHelp(kw)
    ensures var r := RunFunc(ctx, run, c.func, map[]);
      AfterCall(ctx, run, name, c, args, kw)
        == r.effects + (if r.thrown.Some? then [Out(ErrorText(name, r.thrown.value)), SetWaiting(false)] else [SetWaiting(false)])
  {
    SplitTokens(args, kw);
    var r := Call(c, Texts(args), kw);
    assert r.Success? && r.value.Invoke?;
    assert r.value.kwargs == map[];
  }

  /** A known parameterless command called without asking for help, whose
      function runs with no keyword arguments and throws nothing: the
      waiting flag is set, the function's effects follow, and the flag is
      cleared. */
  lemma HandleParameterless(ctx: Context, run: Runner, input: string, f: FuncRef, es: seq<Effect>)
    requires var p := JsTokenize(input);
      p.command.Some? && !WantsHelp(p.kwargs)
      && Get(ctx.commands, p.command.value).Some?
      && Get(ctx.commands, p.command.value).value.params == []
      && Get(ctx.commands, p.command.value).value.func == f
    requires RunFunc(ctx, run, f, map[]) == Run(es, None)
    ensures HandleCommand(ctx, run, input) == [SetWaiting(true)] + es + [SetWaiting(false)]
  {
    var p := JsTokenize(input);
    var c := Get(ctx.commands, p.command.value).value;
    HandleFound(ctx, run, input);
    CallParameterless(ctx, run, p.command.value, c, p.args, p.kwargs);
    var after := AfterCall(ctx, run, p.command.value, c, p.args, p.kwargs);
    assert after == es + [SetWaiting(false)];
    Bracketed(HandleCommand(ctx, run, input), after, es);
  }

  lemma Bracketed(all: seq<Effect>, after: seq<Effect>, es: seq<Effect>)
    requires all == [] + [SetWaiting(true)] + after
    requires after == es + [SetWaiting(false)]
    ensures all == [SetWaiting(true)] + es + [SetWaiting(false)]
  {
  }

  /** A blank line does nothing; otherwise the command is the first word. */
  lemma HandleBlank(ctx: Context, run: Runner, input: string)
    ensures IsBlank(JavaScript, input) ==> HandleCommand(ctx, run, input) == []
    ensures !IsBlank(JavaScript, input) ==> JsTokenize(input).command == Some(Words(JavaScript, input)[0])
  {
    JsCommandWord(input);
  }

  /** An unknown command only prints the not-found line. */
  lemma HandleNotFound(ctx: Context, run: Runner, input: string)
    requires JsTokenize(input).command.Some? && !Has(ctx.commands, JsTokenize(input).command.value)
    ensures HandleCommand(ctx, run, input) == [Out("Command not found.\n")]
  {
    JsCommandWord(input);
  }

  /** The waiting flag is set before a known command runs and is cleared
      at the end, whether it printed help, failed to bind or threw. */
  lemma HandleWaits(ctx: Context, run: Runner, input: string)
    requires JsTokenize(input).command.Some? && Has(ctx.commands, JsTokenize(input).command.value)
    ensures SetWaiting(true) in HandleCommand(ctx, run, input)
    ensures var es := HandleCommand(ctx, run, input); es[|es| - 1] == SetWaiting(false)
  {
    HandleFound(ctx, run, input);
    var p := JsTokenize(input);
    var name := p.command.value;
    var c := Get(ctx.commands, name).value;
    var tail := AfterCall(ctx, run, name, c, p.args, p.kwargs);
    AfterCallEnds(ctx, run, name, c, p.args, p.kwargs);
    var pre := (if WantsHelp(p.kwargs) then [Out(Help(c)), Out("\n")] else []) + [SetWaiting(true)];
    assert HandleCommand(ctx, run, input) == pre + tail;
    assert pre[|pre| - 1] == SetWaiting(true);
  }

  /** A help request prints the command's help and a blank line and runs
      nothing. */
  lemma HandleHelp(ctx: Context, run: Runner, input: string)
    requires JsTokenize(input).command.Some? && Has(ctx.commands, JsTokenize(input).command.value)
    requires WantsHelp(JsTokenize(input).kwargs)
    ensures HandleCommand(ctx, run, input)
      == [Out(Help(Get(ctx.commands, JsTokenize(input).command.value).value)), Out("\n"), SetWaiting(true), SetWaiting(false)]
  {
    var p := JsTokenize(input);
    SplitTokens(p.args, p.kwargs);
  }

  /** A parameter the arguments do not satisfy is reported, prefixed with
      the command name, and nothing runs. */
  lemma HandleParamError(ctx: Context, run: Runner, input: string)
    requires JsTokenize(input).command.Some? && Has(ctx.commands, JsTokenize(input).command.value)
    requires !WantsHelp(JsTokenize(input).kwargs)
    requires Call(Get(ctx.commands, JsTokenize(input).command.value).value,
                  Texts(JsTokenize(input).args), JsTokenize(input).kwargs).Failure?
    ensures HandleCommand(ctx, run, input) == [SetWaiting(true), Out(ErrorText(JsTokenize(input).command.value,
      "Error: " + Call(Get(ctx.commands, JsTokenize(input).command.value).value,
                       Texts(JsTokenize(input).args), JsTokenize(input).kwargs).error)), SetWaiting(false)]
  {
    var p := JsTokenize(input);
    SplitTokens(p.args, p.kwargs);
  }

  /** `handleInput` for a key event: Ctrl+C echoes the pending line with
      `^C`, shows the prompt unless a command is running, and clears the
      waiting flag; other keys do nothing. */
  function HandleKey(ctx: Context, ctrl: bool, key: string, waiting: bool): (es: seq<Effect>)
    ensures !(ctrl && key == "c") ==> es == []
    ensures ctrl && key == "c" ==> |es| >= 2 && es[0] == ClearInput("^C") && es[|es| - 1] == SetWaiting(false)
    ensures ctrl && key == "c" ==> (Out(ctx.prompt) in es <==> !waiting)
  {
    if ctrl && key == "c" then
      [ClearInput("^C")] + (if !waiting then [Out(ctx.prompt)] else []) + [SetWaiting(false)]
    else []
  }

  // ---- relations ----

  /** `createRelation(terminal, child, commandName, description, welcome)`
      on a registry of contexts by identity: the parent gains a command
      that enters the child and prints the welcome line, the child an
      `exit` command that leaves it and says goodbye. An empty command
      name falls back, through `name || func.name`, to the name of the
      entering function, `switchTerminals`. */
  function CreateRelation(reg: map<string, Context>, parent: string, child: string,
                          name: string, description: string, welcome: string): (r: map<string, Context>)
    requires parent in reg && child in reg
    ensures r.Keys == reg.Keys
    ensures r[parent].prompt == reg[parent].prompt && r[child].prompt == reg[child].prompt
    ensures Get(r[child].commands, "exit") == Some(Command("exit", "Exit the current terminal", [], ExitContext))
    ensures var n := if name != "" then name else "switchTerminals";
      parent != child || n != "exit" ==>
        Get(r[parent].commands, n) == Some(Command(n, description, [], EnterChild(child, welcome)))
    ensures name == "" ==> Get(r[parent].commands, "") == Get(reg[parent].commands, "")
    ensures forall id :: id in reg && id != parent && id != child ==> r[id] == reg[id]
  {
    var n := if name != "" then name else "switchTerminals";
    var enter := Command(n, description, [], EnterChild(child, welcome));
    var exit := Command("exit", "Exit the current terminal", [], ExitContext);
    var reg1 := reg[parent := Attach(reg[parent], CommandObj(enter)).value];
    var r := reg1[child := Attach(reg1[child], CommandObj(exit)).value];
    AttachOthers(reg[parent], enter);
    AttachOthers(reg1[child], exit);
    r
  }
}
