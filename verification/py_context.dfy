/** The Python context stack (backend/terminal/input_context_handler.py):
    a process-wide stack of terminals; input goes to the terminals from the
    top down until one reports it handled, and the reply ends with the
    prompt of whichever terminal is on top afterwards. */
module PyContext {
  import opened Wrappers
  import opened Exceptions
  import opened PyTerminal

  // ---- the stack ----

  /** `push_handler`: the terminal becomes the new top. */
  function Push(stack: seq<Terminal>, h: Terminal): (r: seq<Terminal>)
    ensures |r| == |stack| + 1 && r[|r| - 1] == h
    ensures r[..|stack|] == stack
  {
    stack + [h]
  }

  /** `pop_handler`: the top is removed and returned; an empty stack gives
      `None`. The last terminal can be popped, leaving the stack empty. */
  function Pop(stack: seq<Terminal>): (r: (Option<Terminal>, seq<Terminal>))
    ensures stack == [] <==> r.0.None?
    ensures stack == [] ==> r.1 == []
    ensures stack != [] ==> r.0 == Some(stack[|stack| - 1]) && r.1 + [r.0.value] == stack
  {
    if stack == [] then (None, [])
    else (Some(stack[|stack| - 1]), stack[..|stack| - 1])
  }

  /** Popping undoes a push. */
  lemma PopPush(stack: seq<Terminal>, h: Terminal)
    ensures Pop(Push(stack, h)) == (Some(h), stack)
  {
    assert Push(stack, h)[..|stack|] == stack;
  }

  /** Popping a one-terminal stack empties it. */
  lemma PopLast(h: Terminal)
    ensures Pop([h]) == (Some(h), [])
  {
  }

  // ---- the singleton ----

  /** The class attribute `_instance`: unset until the first construction. */
  datatype Slot = Unset | Instance(handlers: seq<Terminal>)

  /** `InputContextHandler(handlers)`: the first construction stores the
      list; every later one returns the same instance and ignores its
      argument. */
  function Construct(slot: Slot, handlers: seq<Terminal>): (r: Slot)
    ensures r.Instance?
    ensures slot.Unset? ==> r.handlers == handlers
    ensures slot.Instance? ==> r == slot
  {
    if slot.Unset? then Instance(handlers) else slot
  }

  /** Constructing twice gives the first instance, whatever the second
      list holds. */
  lemma ConstructTwice(a: seq<Terminal>, b: seq<Terminal>)
    ensures Construct(Construct(Unset, a), b) == Instance(a)
  {
  }

  // ---- handling input ----

  /** What one terminal's `handle_input` does: it answers with an output
      and a handled flag, or raises; either way the commands it runs may
      have pushed or popped terminals, giving the stack afterwards. */
  datatype Outcome = Answered(output: string, handled: bool, after: seq<Terminal>) | Threw(msg: string, after: seq<Terminal>)

  /** The terminals' behaviour, by terminal, input and stack at the call. */
  type Behaviour = (Terminal, string, seq<Terminal>) -> Outcome

  datatype Answer = Answer(text: string, handled: bool, stack: seq<Terminal>)

  /** The message of the `IndexError` that `self.input_handlers[-1]` raises
      when the stack has been emptied. */
  const IndexOutOfRange := "list index out of range"

  /** The `for handler in reversed(...)` loop. The reverse iterator keeps
      a position; before each step it stops when the position is negative
      or no longer inside the list, which may have shrunk meanwhile. */
  function Loop(b: Behaviour, input: string, stack: seq<Terminal>, pos: int): (r: Answer)
    requires pos < |stack|
    decreases pos + 1
  {
    if pos < 0 then Answer("", false, stack)
    else match b(stack[pos], input, stack)
      case Threw(msg, after) => Answer(msg, false, after)
      case Answered(out, handled, after) =>
        if handled then
          if after == [] then Answer(IndexOutOfRange, false, after)
          else Answer(out + after[|after| - 1].prompt, true, after)
        else if pos - 1 < |after| then Loop(b, input, after, pos - 1)
        else Answer("", false, after)
  }

  /** `InputContextHandler.handle_input`: an empty stack raises; otherwise
      the loop runs from the top. */
  function HandleInput(b: Behaviour, input: string, stack: seq<Terminal>): (r: Result<Answer, Exc>)
    ensures stack == [] <==> r.Failure?
    ensures stack == [] ==> r.error == Exc(ValueError, "No input handlers available")
  {
    if stack == [] then Failure(Exc(ValueError, "No input handlers available"))
    else Success(Loop(b, input, stack, |stack| - 1))
  }

  /** The top terminal answering handled ends the loop: the reply is its
      output followed by the prompt of the terminal on top after the call,
      so a push or pop made by the command shows in the prompt. */
  lemma TopHandles(b: Behaviour, input: string, stack: seq<Terminal>)
    requires stack != []
    requires b(stack[|stack| - 1], input, stack).Answered?
    requires b(stack[|stack| - 1], input, stack).handled
    requires b(stack[|stack| - 1], input, stack).after != []
    ensures var o := b(stack[|stack| - 1], input, stack);
      HandleInput(b, input, stack)
        == Success(Answer(o.output + o.after[|o.after| - 1].prompt, true, o.after))
  {
  }

  /** A command that pops the last terminal leaves nothing to take the
      prompt from: the `IndexError` this raises is caught like any other
      exception, so the answer is its message and unhandled. */
  lemma PoppedEmpty(b: Behaviour, input: string, stack: seq<Terminal>)
    requires stack != []
    requires b(stack[|stack| - 1], input, stack).Answered?
    requires b(stack[|stack| - 1], input, stack).handled && b(stack[|stack| - 1], input, stack).after == []
    ensures HandleInput(b, input, stack) == Success(Answer(IndexOutOfRange, false, []))
  {
  }

  /** An exception in any terminal becomes its message and `False`. */
  lemma ThrowIsUnhandled(b: Behaviour, input: string, stack: seq<Terminal>, pos: int)
    requires 0 <= pos < |stack|
    requires b(stack[pos], input, stack).Threw?
    ensures Loop(b, input, stack, pos) == Answer(b(stack[pos], input, stack).msg, false, b(stack[pos], input, stack).after)
  {
  }

  /** A behaviour that never changes the stack. */
  ghost predicate Stable(b: Behaviour, input: string, stack: seq<Terminal>) {
    forall i :: 0 <= i < |stack| ==> b(stack[i], input, stack).after == stack
  }

  /** The terminal that should answer: the highest position whose terminal
      raises or reports handled, if any. */
  function Responder(b: Behaviour, input: string, stack: seq<Terminal>, pos: int): (r: Option<nat>)
    requires pos < |stack|
    decreases pos + 1
    ensures r.Some? ==> (r.value <= pos
      && (b(stack[r.value], input, stack).Threw? || b(stack[r.value], input, stack).handled))
    ensures r.Some? ==> forall j :: r.value < j <= pos ==>
      (b(stack[j], input, stack).Answered? && !b(stack[j], input, stack).handled)
    ensures r.None? ==> forall j :: 0 <= j <= pos ==>
      (b(stack[j], input, stack).Answered? && !b(stack[j], input, stack).handled)
  {
    if pos < 0 then None
    else
      var o := b(stack[pos], input, stack);
      if o.Threw? || o.handled then Some(pos) else Responder(b, input, stack, pos - 1)
  }

  /** With a stack no command changes, the terminals are tried from the top
      down: the first that raises or reports handled gives the answer, and
      when none does the answer is empty and unhandled. */
  lemma {:induction false} StableLoop(b: Behaviour, input: string, stack: seq<Terminal>, pos: int)
    requires pos < |stack|
    requires Stable(b, input, stack)
    decreases pos + 1
    ensures Responder(b, input, stack, pos).None? ==> Loop(b, input, stack, pos) == Answer("", false, stack)
    ensures Responder(b, input, stack, pos).Some? ==>
      (var o := b(stack[Responder(b, input, stack, pos).value], input, stack);
       Loop(b, input, stack, pos) == (if o.Threw? then Answer(o.msg, false, stack)
         else Answer(o.output + stack[|stack| - 1].prompt, true, stack)))
  {
    if pos >= 0 {
      var o := b(stack[pos], input, stack);
      assert o.after == stack;
      if !o.Threw? && !o.handled {
        StableLoop(b, input, stack, pos - 1);
      }
    }
  }
}
