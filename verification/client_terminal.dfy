/** The function-component terminal (frontend/src/Terminal.js), which
    leaves every command but `clear` to the server: its transcript, prompt
    and input line, history navigation with held-key handling, and the
    two halves of a submission (what happens at once, and what happens
    when the server's answers arrive). The effects React re-runs after a
    change (the saved line follows the input line while not navigating;
    the caret is kept inside the line) are applied after every event. */
module ClientTerminal {
  import opened Wrappers
  import opened Text
  import opened CommandHistory
  import opened HistoryNav
  import JsTerminal

  const StartPrompt := "user@terminal:~$ "

  /** The component's state: transcript, current prompt, navigation state,
      the lines typed in this page, the caret, the loading flag and whether
      Up or Down is being held. */
  datatype Client = Client(
    transcript: string,
    prompt: string,
    nav: Nav,
    local: seq<string>,
    caret: nat,
    loading: bool,
    holdUp: bool,
    holdDown: bool)

  /** The state the component mounts with: the welcome message, then the
      default prompt. */
  function Mounted(msg: string): (c: Client)
    ensures c.transcript == msg + "\n" + c.prompt && c.prompt == StartPrompt
    ensures c.nav == Nav(-1, "", "") && c.local == [] && !c.loading
  {
    Client(msg + "\n" + StartPrompt, StartPrompt, Nav(-1, "", ""), [], 0, false, false, false)
  }

  /** The state the component's effects leave behind: when not navigating
      the saved line is the input line, and the caret is inside the line. */
  predicate Settled(c: Client) {
    (c.nav.index == -1 ==> c.nav.saved == c.nav.command) && c.caret <= |c.nav.command|
  }

  /** Running the two effects: only the saved line and the caret move. */
  function Settle(c: Client): (r: Client)
    ensures Settled(r)
    ensures Settled(c) ==> r == c
    ensures r.nav.index == c.nav.index && r.nav.command == c.nav.command
    ensures r.nav.index != -1 ==> r.nav.saved == c.nav.saved
    ensures r == c.(nav := r.nav, caret := r.caret)
  {
    var saved := if c.nav.index == -1 then c.nav.command else c.nav.saved;
    var caret := if c.caret > |c.nav.command| then |c.nav.command| else c.caret;
    c.(nav := c.nav.(saved := saved), caret := caret)
  }

  /** Typing: the input line and the caret change. */
  function OnInput(c: Client, text: string, caret: nat): (r: Client)
    ensures r.nav.command == text && r.nav.index == c.nav.index && Settled(r)
    ensures c.nav.index == -1 ==> r.nav.saved == text
    ensures c.nav.index != -1 ==> r.nav.saved == c.nav.saved
  {
    Settle(c.(nav := c.nav.(command := text), caret := caret))
  }

  // ---- submitting ----

  /** What a submission sends to the server's terminal endpoint: the
      command, whether the page handled it, and the prompt as the
      submission saw it (the request's error handler prints that prompt,
      not one fetched meanwhile). */
  datatype Request = Request(command: string, handled: bool, prompt: string)

  /** The answer of the current-prompt request. */
  datatype PromptReply = PromptIs(p: string) | PromptFailed

  /** The answer of the terminal request: its message, or the error text. */
  datatype PostReply = Reply(message: string) | PostFailed(error: string)

  /** The commands the page runs itself. */
  predicate IsClientCommand(cmd: string) {
    cmd == "clear"
  }

  /** The synchronous half of `handleSubmit`: the input line, the saved line
      and the index are reset and the trimmed line is echoed. While an
      earlier submission is still loading, that is all. Otherwise a non-empty
      line is added to the page's history, `clear` empties the transcript,
      loading starts and a request for the server is made. */
  function Begin(c: Client): (r: (Client, Option<Request>))
    ensures r.0.nav == Nav(-1, "", "") && r.0.caret == 0 && r.0.prompt == c.prompt
    ensures c.loading ==> (r.1.None? && r.0.local == c.local && r.0.loading
      && r.0.transcript == c.transcript + Trim(JavaScript, c.nav.command) + "\n")
    ensures !c.loading ==> (r.1.Some? && r.0.loading
      && r.1.value.command == Trim(JavaScript, c.nav.command)
      && r.1.value.prompt == c.prompt
      && (r.1.value.handled <==> IsClientCommand(r.1.value.command))
      && r.0.transcript == (if r.1.value.handled then "" else c.transcript + r.1.value.command + "\n")
      && r.0.local == (if r.1.value.command == [] then c.local else c.local + [r.1.value.command]))
  {
    var cmd := Trim(JavaScript, c.nav.command);
    var echoed := c.(nav := Nav(-1, "", ""), caret := 0, transcript := c.transcript + cmd + "\n");
    if c.loading then (echoed, None)
    else
      var handled := IsClientCommand(cmd);
      TrimIdempotent(JavaScript, c.nav.command);
      (echoed.(local := if cmd == [] then c.local else c.local + [cmd],
               transcript := if handled then "" else echoed.transcript,
               loading := true),
       Some(Request(Trim(JavaScript, cmd), handled, c.prompt)))
  }

  /** The asynchronous half: a non-empty prompt from the server replaces the
      current one and a failed request restores the default; then the
      server's message is appended, or on failure the error text, a line
      break and the prompt the submission saw. Loading ends. */
  function Finish(c: Client, req: Request, prompt: PromptReply, post: PostReply): (r: Client)
    ensures !r.loading && r.nav == c.nav && r.local == c.local
    ensures prompt.PromptIs? && prompt.p != "" ==> r.prompt == prompt.p
    ensures prompt.PromptIs? && prompt.p == "" ==> r.prompt == c.prompt
    ensures prompt.PromptFailed? ==> r.prompt == StartPrompt
    ensures post.Reply? ==> r.transcript == c.transcript + post.message
    ensures post.PostFailed? ==> r.transcript == c.transcript + post.error + "\n" + req.prompt
  {
    var p := match prompt
      case PromptIs(s) => if s != "" then s else c.prompt
      case PromptFailed => StartPrompt;
    var t := match post
      case Reply(m) => c.transcript + m
      case PostFailed(e) => c.transcript + e + "\n" + req.prompt;
    c.(prompt := p, transcript := t, loading := false)
  }

  /** A submission made while another is loading loses its line: it is
      echoed but neither kept in the page's history nor sent. */
  lemma SubmitWhileLoading(c: Client)
    requires c.loading && Trim(JavaScript, c.nav.command) != []
    ensures Begin(c).1.None? && Begin(c).0.local == c.local
    ensures Begin(c).0.nav.command == [] && Begin(c).0.nav.saved == []
  {
  }

  /** A failed terminal request prints the prompt the submission saw, even
      when the prompt request has meanwhile changed it. */
  lemma FailedPostShowsOldPrompt(c: Client, p: string, e: string)
    requires !c.loading && p != "" && p != c.prompt
    ensures var (c1, req) := Begin(c);
      var r := Finish(c1, req.value, PromptIs(p), PostFailed(e));
      r.prompt == p && r.transcript == c1.transcript + e + "\n" + c.prompt
  {
  }

  /** Only `clear` is handled by the page, and it leaves an empty
      transcript until the server's message arrives; every other line is
      echoed and passed on as not handled. */
  lemma ClearIsClientSide(c: Client, m: string)
    requires !c.loading
    ensures var (c1, req) := Begin(c);
      req.value.handled <==> Trim(JavaScript, c.nav.command) == "clear"
    ensures Trim(JavaScript, c.nav.command) == "clear" ==>
      var (c1, req) := Begin(c);
      Finish(c1, req.value, PromptFailed, Reply(m)).transcript == m
  {
  }

  /** Outside a running submission, and for any line but `clear`, the
      echo, the page's history and the reset navigation agree with the
      class component's `clearInput("")`, and the line sent is the one
      `clearInput` returns. */
  lemma AgreesWithClassComponent(c: Client, st: JsTerminal.TermState)
    requires !c.loading && !IsClientCommand(Trim(JavaScript, c.nav.command))
    requires st.nav.command == c.nav.command && st.transcript == c.transcript && st.local == c.local
    ensures var (st1, cmd) := JsTerminal.ClearLine(st, "");
      var (c1, req) := Begin(c);
      c1.transcript == st1.transcript && c1.local == st1.local && c1.nav == st1.nav
      && req.value.command == cmd
  {
    var cmd := Trim(JavaScript, c.nav.command);
    assert c.transcript + cmd + "" + "\n" == c.transcript + cmd + "\n";
  }

  // ---- keys ----

  datatype KeyName = Up | Down | EnterKey | EscapeKey | OtherKey

  /** Marks a held (auto-repeating) Up or Down key. */
  function Hold(c: Client, key: KeyName, repeat: bool): (r: Client)
    ensures r == c.(holdUp := r.holdUp, holdDown := r.holdDown)
    ensures r.holdUp == (c.holdUp || (repeat && key == Up))
    ensures r.holdDown == (c.holdDown || (repeat && key == Down))
  {
    if repeat && key == Up then c.(holdUp := true)
    else if repeat && key == Down then c.(holdDown := true)
    else c
  }

  /** `handleInputKeyDown`: Up and Down step through the history unless
      held; a held Down goes back to the saved line; Enter submits; Escape
      clears the line. `answer` is what the server says for the new index
      when the step has to ask it. Keys are not ignored while loading. */
  function InputKeyDown(c: Client, key: KeyName, repeat: bool, answer: Answer): (r: (Client, Option<Request>))
    ensures key != EnterKey ==> r.1.None?
    ensures key == EnterKey ==> r == Begin(Hold(c, key, repeat))
  {
    var c1 := Hold(c, key, repeat);
    match key
    case Up =>
      if !c1.holdUp then (Settle(c1.(nav := Navigate(c1.nav, c1.local, 1, answer))), None)
      else (c1, None)
    case Down =>
      if !c1.holdDown then (Settle(c1.(nav := Navigate(c1.nav, c1.local, -1, answer))), None)
      else (Settle(c1.(nav := Nav(-1, c1.nav.saved, c1.nav.saved))), None)
    case EnterKey => Begin(c1)
    case EscapeKey => (Settle(c1.(nav := Nav(-1, "", c1.nav.saved))), None)
    case OtherKey => (c1, None)
  }

  /** The window's key-up listener releases a held arrow key. */
  function KeyUp(c: Client, key: KeyName): (r: Client)
    ensures key == Up ==> r == c.(holdUp := false)
    ensures key == Down ==> r == c.(holdDown := false)
    ensures key != Up && key != Down ==> r == c
  {
    match key
    case Up => c.(holdUp := false)
    case Down => c.(holdDown := false)
    case _ => c
  }

  /** While Up is held, Up presses change nothing but the hold flag. */
  lemma HeldUpIgnored(c: Client, answer: Answer)
    ensures InputKeyDown(c, Up, true, answer).0 == c.(holdUp := true)
    ensures c.holdUp ==> InputKeyDown(c, Up, false, answer).0 == c
  {
  }

  /** A held Down goes back to the saved line, and stays there. */
  lemma HeldDownRestores(c: Client, answer: Answer)
    ensures InputKeyDown(c, Down, true, answer).0.nav == Nav(-1, c.nav.saved, c.nav.saved)
  {
  }

  /** Once released, Up steps through the history again. */
  lemma ReleaseThenUp(c: Client, answer: Answer)
    ensures InputKeyDown(KeyUp(c, Up), Up, false, answer).0.nav.index
      == Navigate(c.nav, c.local, 1, answer).index
    ensures InputKeyDown(KeyUp(c, Up), Up, false, answer).0.nav.command
      == Navigate(c.nav, c.local, 1, answer).command
  {
  }

  /** From a settled input line, Up then Down (neither held) brings the
      typed line back, whatever the server answers. */
  lemma UpDownRestoresTyped(c: Client, h: History, answer: Answer)
    requires Settled(c) && c.nav.index == -1 && !c.holdUp && !c.holdDown
    ensures var up := InputKeyDown(c, Up, false, ServerAnswer(h, 0)).0;
      InputKeyDown(up, Down, false, answer).0.nav == Nav(-1, c.nav.command, c.nav.command)
  {
    var up := InputKeyDown(c, Up, false, ServerAnswer(h, 0)).0;
    NavigateCases(c.nav, c.local, 1, ServerAnswer(h, 0));
    assert up.nav.saved == c.nav.command;
    assert up.nav.index == 0;
  }

  /** Escape forgets the typed line: the saved line follows the cleared
      input, so a held Down afterwards gives back an empty line. */
  lemma EscapeForgets(c: Client, answer: Answer)
    ensures var e := InputKeyDown(c, EscapeKey, false, answer).0;
      e.nav == Nav(-1, "", "")
      && InputKeyDown(e, Down, true, answer).0.nav == Nav(-1, "", "")
  {
  }

  /** An edit made while a history line is shown is lost on returning to
      the input line: the saved line is the one typed before navigating. */
  lemma EditWhileNavigatingLost(c: Client, text: string, answer: Answer)
    requires c.nav.index == 0 && !c.holdDown
    ensures InputKeyDown(OnInput(c, text, 0), Down, false, answer).0.nav == Nav(-1, c.nav.saved, c.nav.saved)
  {
  }

  /** Every key leaves the component settled. */
  lemma KeyDownSettles(c: Client, key: KeyName, repeat: bool, answer: Answer)
    requires Settled(c)
    ensures Settled(InputKeyDown(c, key, repeat, answer).0)
  {
  }
}
