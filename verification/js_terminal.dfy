/** The class-based terminal component (frontend/src/terminal/Terminal.js):
    its transcript and input line, the stack of contexts whose top handles
    each submitted line, command-line history navigation, and the key
    handling that ties these together. Contexts are held in a registry by
    identity, since the component keeps references to shared context
    objects. */
module JsTerminal {
  import opened Wrappers
  import opened Text
  import opened Args
  import opened OrderedTable
  import opened JsCommand
  import Parameters
  import opened JsContext
  import opened CommandHistory
  import opened HistoryNav

  const DefaultPrompt := "user@terminal:~$ "

  /** The component's state: the transcript shown, the navigation state
      (history index, input line, saved line), the lines typed in this
      page, the caret, the waiting flag and the context stack. */
  datatype TermState = TermState(
    transcript: string,
    nav: Nav,
    local: seq<string>,
    caret: int,
    waiting: bool,
    stack: seq<string>)

  // ---- the default context ----

  function Plain(name: string, description: string): JsObj {
    CommandObj(Command(name, description, [], UserFunc(name)))
  }

  /** The commands of `default_context`; `ping` takes a required positional
      string `url`. */
  function DefaultCommands(): (objs: seq<JsObj>)
    ensures forall i :: 0 <= i < |objs| ==> objs[i].CommandObj?
  {
    [ Plain("clear", "Clears the terminal output."),
      Plain("msg", "Outputs the welcome message."),
      CommandObj(Command("ping", "Pings a website to check connectivity.",
        [Parameters.Param("url", Some(JsString), "URL to ping", true, None, true)], UserFunc("ping"))),
      Plain("wait", "Simulates a loading process with dots."),
      Plain("exit", "Closes the terminal."),
      Plain("reload", "Reloads the page.") ]
  }

  function DefaultContext(): (ctx: Context)
    ensures ctx.prompt == DefaultPrompt
  {
    NewContext(DefaultPrompt, DefaultCommands()).value
  }

  /** What the default commands do at once; `msg` prints the component's
      `msg` property, or a greeting when it is empty. */
  function DefaultRunner(msg: string): Runner {
    (id: string, m: map<string, Arg>) =>
      if id == "clear" then Run([ClearTranscript], None)
      else if id == "msg" then Run([Out(if msg == "" then "Hello, World!" else msg), Out("\n")], None)
      else if id == "ping" then Run([Out("Attempting to ping GitHub API...\n"), Out("Press Ctrl+C to cancel.\n")], None)
      else if id == "wait" then Run([Out("Loading")], None)
      else if id == "exit" then Run([Out("Closing the terminal...\n")], None)
      else if id == "reload" then Run([Out("Reloading the page...\n")], None)
      else Run([], None)
  }

  /** The contexts the constructor wires up: the default context gains a
      `words` command entering the words context, which gains `exit`. */
  function Registry(words: Context): (reg: map<string, Context>)
    ensures reg.Keys == {"default", "words"}
    ensures reg["default"].prompt == DefaultPrompt
    ensures Get(reg["default"].commands, "words")
      == Some(Command("words", "Start the words terminal.", [], EnterChild("words", "Words terminal started.")))
    ensures Get(reg["words"].commands, "exit") == Some(Command("exit", "Exit the current terminal", [], ExitContext))
  {
    Relate(DefaultContext(), words)
  }

  function Relate(def: Context, words: Context): (reg: map<string, Context>)
    ensures reg.Keys == {"default", "words"}
    ensures reg["default"].prompt == def.prompt
    ensures Get(reg["default"].commands, "words")
      == Some(Command("words", "Start the words terminal.", [], EnterChild("words", "Words terminal started.")))
    ensures Get(reg["words"].commands, "exit") == Some(Command("exit", "Exit the current terminal", [], ExitContext))
  {
    var base := map["default" := def, "words" := words];
    assert base.Keys == {"default", "words"};
    CreateRelation(base, "default", "words", "words", "Start the words terminal.", "Words terminal started.")
  }

  /** The state after construction. */
  function Initial(msg: string): TermState {
    TermState(msg + "\n" + DefaultPrompt, Nav(-1, "", ""), [], 0, false, ["default"])
  }

  // ---- state changes ----

  /** `clearInput(postfix)`: the trimmed line is echoed with the postfix,
      kept in the page's history when not empty, and the input and
      navigation are reset. Returns the trimmed line. */
  function ClearLine(st: TermState, postfix: string): (r: (TermState, string))
    ensures r.1 == Trim(JavaScript, st.nav.command)
    ensures r.0.transcript == st.transcript + r.1 + postfix + "\n"
    ensures r.0.nav == Nav(-1, "", "")
    ensures r.0.local == if r.1 == [] then st.local else st.local + [r.1]
    ensures r.0.stack == st.stack && r.0.waiting == st.waiting
  {
    var cmd := Trim(JavaScript, st.nav.command);
    (st.(transcript := st.transcript + cmd + postfix + "\n", nav := Nav(-1, "", ""),
         local := if cmd == [] then st.local else st.local + [cmd]), cmd)
  }

  /** `popContext`: the last context is never popped; a popped context is
      reported as JavaScript renders an object in a template string. */
  function PopStack(st: TermState): (r: TermState)
    ensures |st.stack| == 1 ==> r == st.(transcript := st.transcript + "No context to pop.\n")
    ensures |st.stack| > 1 ==> r == st.(stack := st.stack[..|st.stack| - 1],
      transcript := st.transcript + "Context popped: [object Object]\n")
    ensures |st.stack| >= 1 ==> |r.stack| >= 1
  {
    if |st.stack| == 1 then st.(transcript := st.transcript + "No context to pop.\n")
    else if st.stack == [] then st.(transcript := st.transcript + "Context popped: undefined\n")
    else st.(stack := st.stack[..|st.stack| - 1], transcript := st.transcript + "Context popped: [object Object]\n")
  }

  /** One effect a context or command has on the component. */
  function Apply(st: TermState, e: Effect): TermState {
    match e
    case Out(s) => st.(transcript := st.transcript + s)
    case ClearInput(p) => ClearLine(st, p).0
    case SetWaiting(b) => st.(waiting := b)
    case PushContext(id) => st.(stack := st.stack + [id])
    case PopContext => PopStack(st)
    case ClearTranscript => st.(transcript := "")
  }

  function ApplyAll(st: TermState, es: seq<Effect>): TermState
    decreases |es|
  {
    if es == [] then st else ApplyAll(Apply(st, es[0]), es[1..])
  }

  lemma ApplyOne(st: TermState, e: Effect)
    ensures ApplyAll(st, [e]) == Apply(st, e)
  {
    assert [e][1..] == [];
  }

  /** Applying two runs of effects is applying the first, then the second. */
  lemma {:induction false} ApplyAllAppend(st: TermState, a: seq<Effect>, b: seq<Effect>)
    decreases |a|
    ensures ApplyAll(st, a + b) == ApplyAll(ApplyAll(st, a), b)
  {
    if a == [] {
      assert a + b == b;
    } else {
      assert (a + b)[0] == a[0] && (a + b)[1..] == a[1..] + b;
      ApplyAllAppend(Apply(st, a[0]), a[1..], b);
    }
  }

  /** No sequence of effects empties the context stack. */
  lemma {:induction false} StackNeverEmpties(st: TermState, es: seq<Effect>)
    requires |st.stack| >= 1
    decreases |es|
    ensures |ApplyAll(st, es).stack| >= 1
  {
    if es != [] {
      StackNeverEmpties(Apply(st, es[0]), es[1..]);
    }
  }

  /** Every context on the stack is registered, as long as the effects
      only push registered contexts. */
  lemma {:induction false} StackStaysRegistered(st: TermState, es: seq<Effect>, reg: map<string, Context>)
    requires forall i :: 0 <= i < |st.stack| ==> st.stack[i] in reg
    requires forall i :: 0 <= i < |es| && es[i].PushContext? ==> es[i].id in reg
    decreases |es|
    ensures forall i :: 0 <= i < |ApplyAll(st, es).stack| ==> ApplyAll(st, es).stack[i] in reg
  {
    if es != [] {
      var st1 := Apply(st, es[0]);
      assert forall i :: 0 <= i < |st1.stack| ==> st1.stack[i] in reg;
      assert forall i :: 0 <= i < |es[1..]| && es[1..][i].PushContext? ==> es[1..][i].id in reg by {
        forall i | 0 <= i < |es[1..]| ensures es[1..][i] == es[i + 1] { }
      }
      StackStaysRegistered(st1, es[1..], reg);
    }
  }

  /** The effects change the navigation state only by resetting it, and
      then an empty input line adds nothing to the page's history. */
  lemma {:induction false} EffectsKeepNav(st: TermState, es: seq<Effect>)
    requires st.nav == Nav(-1, "", "")
    decreases |es|
    ensures ApplyAll(st, es).nav == Nav(-1, "", "")
    ensures ApplyAll(st, es).local == st.local
  {
    if es != [] {
      ApplyKeepsNav(st, es[0]);
      EffectsKeepNav(Apply(st, es[0]), es[1..]);
    }
  }

  lemma ApplyKeepsNav(st: TermState, e: Effect)
    requires st.nav == Nav(-1, "", "")
    ensures Apply(st, e).nav == Nav(-1, "", "") && Apply(st, e).local == st.local
  {
    if e.ClearInput? {
      TrimEmptyIffBlank(JavaScript, "");
      assert Trim(JavaScript, st.nav.command) == [];
    }
  }

  // ---- submitting a line ----

  const NullContext := "TypeError: Cannot read properties of null"

  /** `currentContext()`: the top of the stack, or nothing. */
  function Current(st: TermState, reg: map<string, Context>): (r: Option<Context>)
    ensures r.Some? <==> st.stack != [] && st.stack[|st.stack| - 1] in reg
  {
    if st.stack != [] && st.stack[|st.stack| - 1] in reg then Some(reg[st.stack[|st.stack| - 1]]) else None
  }

  /** A context's `handleCommand`, as the component calls it. */
  type Handler = (Context, string) -> seq<Effect>

  /** The contexts' own `handleCommand`, with user functions run by `run`. */
  function ContextHandler(run: Runner): (handle: Handler)
    ensures forall ctx, line :: handle(ctx, line) == HandleCommand(ctx, run, line)
  {
    (ctx: Context, line: string) => HandleCommand(ctx, run, line)
  }

  /** `submitCommand`: the line is cleared into the transcript, posted to
      the server's history (a refusal is ignored), handled by the current
      context, and the prompt of the context current afterwards is shown.
      The server history is returned alongside. The context's
      `handleCommand` is passed in as `handle`. */
  function Submit(st: TermState, h: History, reg: map<string, Context>, handle: Handler): Result<(TermState, History), string> {
    var (st1, cmd) := ClearLine(st, "");
    var h1 := match PostCommand(h, cmd) case Success(h2) => h2 case Failure(_) => h;
    match Current(st1, reg)
    case None => Failure(NullContext)
    case Some(ctx) =>
      var st2 := ApplyAll(st1, handle(ctx, cmd));
      match Current(st2, reg)
      case None => Failure(NullContext)
      case Some(ctx2) => Success((st2.(transcript := st2.transcript + ctx2.prompt), h1))
  }

  /** How `Submit` proceeds when a context handles the line and one is
      current afterwards. */
  lemma SubmitShape(st: TermState, h: History, reg: map<string, Context>, handle: Handler, es: seq<Effect>)
    requires Current(st, reg).Some?
    requires handle(Current(st, reg).value, ClearLine(st, "").1) == es
    ensures var st2 := ApplyAll(ClearLine(st, "").0, es);
      Current(st2, reg).Some? ==> (Submit(st, h, reg, handle).Success?
        && Submit(st, h, reg, handle).value.0 == st2.(transcript := st2.transcript + Current(st2, reg).value.prompt))
  {
    assert Current(ClearLine(st, "").0, reg) == Current(st, reg);
  }

  /** The page's history and the server's stay in step: when the page's
      lines are the newest the server holds before a submission, they
      still are after it, the non-empty line having been added to both. */
  lemma SubmitKeepsInStep(st: TermState, h: History, older: History, reg: map<string, Context>, handle: Handler)
    requires h == older + st.local
    requires Submit(st, h, reg, handle).Success?
    ensures Submit(st, h, reg, handle).value.1 == older + Submit(st, h, reg, handle).value.0.local
    ensures Submit(st, h, reg, handle).value.0.nav == Nav(-1, "", "")
  {
    var (st1, cmd) := ClearLine(st, "");
    var ctx := Current(st1, reg).value;
    EffectsKeepNav(st1, handle(ctx, cmd));
    if cmd != [] {
      assert Record(h, cmd) == older + (st.local + [cmd]);
    }
  }

  /** A submitted line that the context answers as the command entering
      a child context does (`EnterEffects`) pushes the child, prints the
      welcome line and shows the child's prompt. */
  lemma SubmitEntersChild(st: TermState, h: History, reg: map<string, Context>, handle: Handler,
                          child: string, welcome: string)
    requires Current(st, reg).Some?
    requires child in reg
    requires handle(Current(st, reg).value, Trim(JavaScript, st.nav.command))
      == [SetWaiting(true), PushContext(child), Out(welcome), Out("\n"), SetWaiting(false)]
    ensures Submit(st, h, reg, handle).Success?
    ensures Submit(st, h, reg, handle).value.0.stack == st.stack + [child]
    ensures Submit(st, h, reg, handle).value.0.transcript
      == st.transcript + Trim(JavaScript, st.nav.command) + "\n" + welcome + "\n" + reg[child].prompt
  {
    var (st1, cmd) := ClearLine(st, "");
    var ctx := Current(st, reg).value;
    var es := [SetWaiting(true), PushContext(child), Out(welcome), Out("\n"), SetWaiting(false)];
    SubmitShape(st, h, reg, handle, es);
    EnterSteps(st1, child, welcome);
    var e := ApplyAll(st1, es);
    assert e.stack[|e.stack| - 1] == child;
    assert Current(e, reg) == Some(reg[child]);
  }

  lemma EnterSteps(st: TermState, child: string, welcome: string)
    ensures var e := ApplyAll(st, [SetWaiting(true), PushContext(child), Out(welcome), Out("\n"), SetWaiting(false)]);
      e.stack == st.stack + [child] && e.transcript == st.transcript + welcome + "\n"
  {
    Steps5(st, SetWaiting(true), PushContext(child), Out(welcome), Out("\n"), SetWaiting(false));
  }

  lemma ExitSteps(st: TermState)
    ensures var e := ApplyAll(st, [SetWaiting(true), PopContext, Out("Bye!\n"), SetWaiting(false)]);
      e.stack == (if |st.stack| > 1 then st.stack[..|st.stack| - 1] else st.stack)
      && (|st.stack| > 1 ==> e.transcript == st.transcript + "Context popped: [object Object]\n" + "Bye!\n")
      && (|st.stack| == 1 ==> e.transcript == st.transcript + "No context to pop.\n" + "Bye!\n")
  {
    Steps4(st, SetWaiting(true), PopContext, Out("Bye!\n"), SetWaiting(false));
  }

  /** A submitted line that the context answers as the `exit` command
      `createRelation` installs does (`ExitEffects`) leaves the child
      context, with the pop reported, a goodbye and the parent's prompt;
      the outermost context is never left. */
  lemma SubmitExits(st: TermState, h: History, reg: map<string, Context>, handle: Handler)
    requires forall i :: 0 <= i < |st.stack| ==> st.stack[i] in reg
    requires |st.stack| >= 1
    requires handle(reg[st.stack[|st.stack| - 1]], Trim(JavaScript, st.nav.command))
      == [SetWaiting(true), PopContext, Out("Bye!\n"), SetWaiting(false)]
    ensures Submit(st, h, reg, handle).Success?
    ensures |st.stack| > 1 ==> (Submit(st, h, reg, handle).value.0.stack == st.stack[..|st.stack| - 1]
      && Submit(st, h, reg, handle).value.0.transcript == st.transcript + Trim(JavaScript, st.nav.command) + "\n"
        + "Context popped: [object Object]\n" + "Bye!\n" + reg[st.stack[|st.stack| - 2]].prompt)
    ensures |st.stack| == 1 ==> (Submit(st, h, reg, handle).value.0.stack == st.stack
      && Submit(st, h, reg, handle).value.0.transcript == st.transcript + Trim(JavaScript, st.nav.command) + "\n"
        + "No context to pop.\n" + "Bye!\n" + reg[st.stack[0]].prompt)
  {
    var (st1, cmd) := ClearLine(st, "");
    assert st.stack[|st.stack| - 1] in reg;
    assert Current(st, reg) == Some(reg[st.stack[|st.stack| - 1]]);
    var es := [SetWaiting(true), PopContext, Out("Bye!\n"), SetWaiting(false)];
    SubmitShape(st, h, reg, handle, es);
    ExitSteps(st1);
    var d := ApplyAll(st1, es);
    assert st1.transcript == st.transcript + cmd + "\n";
    if |st.stack| > 1 {
      assert d.stack[|d.stack| - 1] == st.stack[|st.stack| - 2];
      assert st.stack[|st.stack| - 2] in reg;
      assert Current(d, reg) == Some(reg[st.stack[|st.stack| - 2]]);
    } else {
      assert Current(d, reg) == Some(reg[st.stack[0]]);
    }
  }

  lemma Steps4(st: TermState, e1: Effect, e2: Effect, e3: Effect, e4: Effect)
    ensures ApplyAll(st, [e1, e2, e3, e4]) == Apply(Apply(Apply(Apply(st, e1), e2), e3), e4)
  {
    assert [e1, e2, e3, e4] == [e1] + [e2] + [e3] + [e4];
    ApplyAllAppend(st, [e1] + [e2] + [e3], [e4]);
    ApplyAllAppend(st, [e1] + [e2], [e3]);
    ApplyAllAppend(st, [e1], [e2]);
    ApplyOne(st, e1);
    ApplyOne(Apply(st, e1), e2);
    ApplyOne(Apply(Apply(st, e1), e2), e3);
    ApplyOne(Apply(Apply(Apply(st, e1), e2), e3), e4);
  }

  lemma Steps5(st: TermState, e1: Effect, e2: Effect, e3: Effect, e4: Effect, e5: Effect)
    ensures ApplyAll(st, [e1, e2, e3, e4, e5]) == Apply(Apply(Apply(Apply(Apply(st, e1), e2), e3), e4), e5)
  {
    assert [e1, e2, e3, e4, e5] == [e1, e2, e3, e4] + [e5];
    ApplyAllAppend(st, [e1, e2, e3, e4], [e5]);
    Steps4(st, e1, e2, e3, e4);
    ApplyOne(Apply(Apply(Apply(Apply(st, e1), e2), e3), e4), e5);
  }

  /** The effects of the command `createRelation` installs in the parent,
      called without asking for help. */
  lemma EnterEffects(ctx: Context, run: Runner, cmd: string, child: string, welcome: string)
    requires var p := JsTokenize(cmd);
      p.command.Some? && !WantsHelp(p.kwargs)
      && Get(ctx.commands, p.command.value).Some?
      && Get(ctx.commands, p.command.value).value.params == []
      && Get(ctx.commands, p.command.value).value.func == EnterChild(child, welcome)
    ensures HandleCommand(ctx, run, cmd) == [SetWaiting(true), PushContext(child), Out(welcome), Out("\n"), SetWaiting(false)]
  {
    var es := [PushContext(child), Out(welcome), Out("\n")];
    assert RunFunc(ctx, run, EnterChild(child, welcome), map[]) == Run(es, None);
    HandleParameterless(ctx, run, cmd, EnterChild(child, welcome), es);
    Bracket(HandleCommand(ctx, run, cmd), es);
  }

  /** Effects bracketed by the waiting flag, written out. */
  lemma Bracket(all: seq<Effect>, es: seq<Effect>)
    requires all == [SetWaiting(true)] + es + [SetWaiting(false)]
    ensures |es| == 2 ==> all == [SetWaiting(true), es[0], es[1], SetWaiting(false)]
    ensures |es| == 3 ==> all == [SetWaiting(true), es[0], es[1], es[2], SetWaiting(false)]
  {
  }

  /** The effects of the `exit` command `createRelation` installs in the
      child, called without asking for help. */
  lemma ExitEffects(ctx: Context, run: Runner, cmd: string)
    requires var p := JsTokenize(cmd);
      p.command.Some? && !WantsHelp(p.kwargs)
      && Get(ctx.commands, p.command.value).Some?
      && Get(ctx.commands, p.command.value).value.params == []
      && Get(ctx.commands, p.command.value).value.func == ExitContext
    ensures HandleCommand(ctx, run, cmd) == [SetWaiting(true), PopContext, Out("Bye!\n"), SetWaiting(false)]
  {
    var es := [PopContext, Out("Bye!\n")];
    assert RunFunc(ctx, run, ExitContext, map[]) == Run(es, None);
    HandleParameterless(ctx, run, cmd, ExitContext, es);
    Bracket(HandleCommand(ctx, run, cmd), es);
  }

  // ---- keys ----

  datatype Key = ArrowUp | ArrowDown(repeat: bool) | Enter | Escape | OtherKey

  /** `handleInputKeyDown`: nothing while a command runs; Up and Down walk
      the history, a held Down jumps back to the saved line, Enter submits
      and Escape clears the line. */
  function KeyDown(st: TermState, h: History, reg: map<string, Context>, handle: Handler, key: Key)
    : (r: Result<(TermState, History), string>)
    ensures st.waiting ==> r == Success((st, h))
    ensures !st.waiting && key.Escape? ==> r == Success((st.(nav := Nav(-1, "", st.nav.saved)), h))
    ensures !st.waiting && key == ArrowDown(true) ==> r == Success((st.(nav := Nav(-1, st.nav.saved, st.nav.saved)), h))
    ensures !st.waiting && (key.ArrowUp? || key.ArrowDown?) ==> (r.Success? && r.value.1 == h
      && r.value.0 == st.(nav := r.value.0.nav) && r.value.0.nav.saved == st.nav.saved)
  {
    if st.waiting then Success((st, h))
    else match key
      case ArrowUp =>
        Success((st.(nav := Navigate(st.nav, st.local, 1, ServerAnswer(h, st.nav.index + 1))), h))
      case ArrowDown(repeat) =>
        if !repeat then Success((st.(nav := Navigate(st.nav, st.local, -1, ServerAnswer(h, st.nav.index - 1))), h))
        else Success((st.(nav := Nav(-1, st.nav.saved, st.nav.saved)), h))
      case Enter => Submit(st, h, reg, handle)
      case Escape => Success((st.(nav := Nav(-1, "", st.nav.saved)), h))
      case OtherKey => Success((st, h))
  }

  /** Up then Down, from the input line, gives back the line being typed. */
  lemma UpThenDown(st: TermState, h: History, reg: map<string, Context>, handle: Handler)
    requires !st.waiting && st.nav.index == -1
    ensures var up := KeyDown(st, h, reg, handle, ArrowUp).value.0;
      KeyDown(up, h, reg, handle, ArrowDown(false)).value.0.nav == Nav(-1, st.nav.saved, st.nav.saved)
  {
    UpDownRestores(st.nav, st.local, h, ServerAnswer(h, -1));
  }

  /** `handleInputChange`: typing sets the line and the saved line. */
  function InputChange(st: TermState, text: string, caret: int): (r: TermState)
    ensures r.nav.command == text && r.nav.saved == text && r.nav.index == st.nav.index
  {
    st.(nav := Nav(st.nav.index, text, text), caret := caret)
  }

  /** `componentDidUpdate`'s caret rule: a caret past the end of the line
      is moved to the end. */
  function ClampCaret(st: TermState): (r: TermState)
    ensures r.caret <= |r.nav.command|
    ensures st.caret <= |st.nav.command| ==> r == st
    ensures st.caret > |st.nav.command| ==> r == st.(caret := |st.nav.command|)
  {
    if st.caret > |st.nav.command| then st.(caret := |st.nav.command|) else st
  }

  /** The window-level key handler passes the key to the current context,
      which handles Ctrl+C. */
  function WindowKey(st: TermState, reg: map<string, Context>, ctrl: bool, key: string): (r: TermState)
    requires Current(st, reg).Some?
    ensures ctrl && key == "c" ==> !r.waiting && r.nav == Nav(-1, "", "")
    ensures !(ctrl && key == "c") ==> r == st
  {
    var es := HandleKey(Current(st, reg).value, ctrl, key, st.waiting);
    if ctrl && key == "c" then
      CtrlCResets(st, Current(st, reg).value.prompt, es);
      ApplyAll(st, es)
    else
      ApplyAll(st, es)
  }

  /** The Ctrl+C effects leave a cleared line and a component that no
      longer waits. */
  lemma CtrlCResets(st: TermState, prompt: string, es: seq<Effect>)
    requires es == [ClearInput("^C"), Out(prompt), SetWaiting(false)] || es == [ClearInput("^C"), SetWaiting(false)]
    ensures !ApplyAll(st, es).waiting && ApplyAll(st, es).nav == Nav(-1, "", "")
  {
    var st1 := ClearLine(st, "^C").0;
    assert ApplyAll(st, es) == ApplyAll(st1, es[1..]);
    if |es| == 3 {
      var st2 := st1.(transcript := st1.transcript + prompt);
      assert ApplyAll(st1, es[1..]) == ApplyAll(st2, es[2..]);
      ApplyOne(st2, SetWaiting(false));
    } else {
      ApplyOne(st1, SetWaiting(false));
    }
  }
}
