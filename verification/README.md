# thyme_server core, modelled in Dafny

thyme_server is a small personal web application. It has three parts:

- a Django backend, with a text terminal whose commands are Python functions;
- a React frontend, with a second text terminal whose commands are JavaScript functions;
- a Secret-Santa page and a vocabulary store.

This project models the parts of the application that hold real logic, as pure functions over immutable values:

- **The two terminal frameworks.** Both languages' `Parameter` classes hold the same fields and print the same help line, so one generic `Parameters` module models them. A `Command` checks its parameters when it is constructed, and binds positional and keyword arguments when it is called (`PyCommand.Call`, `JsCommand.Call`). A tokenizer splits an input line into a command word, arguments and options. The Python tokenizer is `PyTerminal.PyTokenize`; the JavaScript one is `JsContext.JsTokenize`, which consumes an option's value word. A terminal or context keeps an ordered command table with `help` first, and turns a line into a reply (Python) or into a list of effects on the React component (JavaScript).
- **The Python context stack** (`PyContext`). This is the process-wide singleton that hands input to the stacked terminals from the top down. The `CommandHistory` model stores the lines typed, with its `get_last_command(i)` lookup, and the arrow-key history navigation both React terminals share is in `HistoryNav`.
- **The React terminal components.** The class component is modelled in `JsTerminal`: it keeps a context stack, submits lines and handles keys and Ctrl+C. The function component is modelled in `ClientTerminal`: it runs only `clear` itself and leaves everything else to the server.
- **The Secret-Santa matcher** `santaSelector`, modelled as written (`Santa`). `Shuffle` is the Fisher–Yates shuffle, with the random draws as a parameter. `GroupLookup` is the group lookup table, and `WalkFrom` is the matching walk that alternates between two halves. `SantaCases` evaluates the model on fixed keys and draws and compares the results with the claims of the matcher's test file. The page's immutable group editing is in `GroupEditing`; the pairings view is in `PairViewer`.
- **The vocabulary store** (`WordStore`). The database is a value holding rows, symmetric synonym links and the next id. The model covers the uniqueness constraints, the language check, `update_or_create`, `get_word`, `remove_word` (with the cascade), `create_synonym`, the strength steps and `update_word_synonyms`.

Three helper modules are shared:

- `Text` holds the string primitives of the two host languages: their whitespace classes, `split()`, `trim()`, `splitlines()`, `int()` and the `float()` grammar.
- `OrderedTable` holds a string-keyed table that keeps insertion order, as `dict` and plain objects do.
- `Seqs`, `Wrappers` and `Args` hold distinctness, `Option`/`Result`, and the parsed-line types.

The model does not contain the following; each stays a parameter:

- **I/O, HTTP requests and time.** Server answers are data values (`HistoryNav.Answer`, `ClientTerminal.PromptReply`/`PostReply`), and the clock is a `now` argument.
- **Randomness.** The shuffle's draws are an argument, constrained by `Santa.ValidDraws`.
- **User command bodies.** These are functions from a command's identity to what it returns or does (`PyTerminal.Runner`, `JsContext.Runner`, `PyContext.Behaviour`).

## Where the matcher and its tests disagree

The matcher's test file (frontend/src/scripts/SantaSelector.test.js:10-17) checks every result for two things:

- no match pairs two members of one group;
- no two members give to each other.

`santaSelector` as written does not keep either promise in full:

- **A same-group match.** The closing match falls back to the starting member without looking at groups. With the groups `[[a,b],[c],[d]]` and the shuffle `a c b d`, the walk ends with `a` giving to `b`, both of the first group. No group there is over half the members. This is `SantaCases.SameGroupPair`.
- **A 2-cycle.** With exactly two members, `[[a],[b]]`, the only chain is `b→a, a→b`. This is `SantaCases.TwoMembersCycle`.

What does hold is proved in `Santa.SantaSelector`:

- every match but the closing one joins two groups;
- a successful result has at least two matches, so nobody gives to themselves;
- with three or more members there are at least three matches, so no 2-cycle (`Santa.ChainClaims`).

These stay outside a findings table because neither case has one evidently intended fix to set beside the code.

## Model

| member | source | states |
|---|---|---|
| Text.WhitespaceClassesDiffer | backend/terminal/terminal.py:181 | Python's `split()` treats the information separators and NEL as whitespace, and JavaScript's `\s` does not; the byte-order mark is the reverse |
| Text.Words | backend/terminal/terminal.py:181 | `split()` yields only non-empty words that hold no whitespace |
| Text.TokenLen | backend/terminal/terminal.py:181 | the first word of a line runs up to the first whitespace character |
| Text.WordsEmptyIffBlank | backend/terminal/terminal.py:181-182 | `split()` finds no words exactly when the line is all whitespace, which is when the command is `None` |
| Text.WordsJoinRoundTrip | backend/terminal/terminal.py:181 | splitting words that were joined with single spaces gives back those words |
| Text.TrimLeftSuffix | frontend/src/terminal/Terminal.js:75 | left-trimming keeps a suffix that starts with a non-space |
| Text.TrimLeftDropsBlank | frontend/src/terminal/Terminal.js:75 | everything left-trimming drops is whitespace |
| Text.TrimRightPrefix | frontend/src/terminal/Terminal.js:75 | right-trimming keeps a prefix that ends with a non-space |
| Text.TrimRightDropsBlank | frontend/src/terminal/Terminal.js:75 | everything right-trimming drops is whitespace |
| Text.TrimEmptyIffBlank | frontend/src/terminal/Terminal.js:75-79 | `trim()` gives the empty string exactly for all-whitespace input, which is when the page keeps no history entry |
| Text.TrimIdempotent | frontend/src/terminal/Terminal.js:75 | trimming twice trims nothing more |
| Text.WordsDropLeadingBlank | frontend/src/terminal/TerminalContext.js:28-29 | leading whitespace does not change the words |
| Text.WordsDropTrailingBlank | frontend/src/terminal/TerminalContext.js:28-29 | trailing whitespace does not change the words |
| Text.WordsOfTrim | frontend/src/terminal/TerminalContext.js:28-29 | trimming before splitting does not change the words |
| Text.JsTrimSplitIsTrimThenSplit | frontend/src/terminal/TerminalContext.js:28-29 | for a non-empty trimmed line, splitting it at whitespace runs gives its words |
| Text.SplitLines | backend/terminal/terminal.py:75 | no docstring line that `splitlines()` yields holds a line break, and only the empty string yields no lines |
| Text.SplitJoinLines | backend/terminal/terminal.py:75 | lines without breaks, the last one not empty, joined with `\n` and split again come back unchanged |
| Text.JoinSplitLines | backend/terminal/terminal.py:75 | a text whose only breaks are `\n` and which does not end in one is its `splitlines()` joined back with `\n` |
| Text.JoinWithLaid | backend/terminal/terminal.py:255 | `"\n".join(parts)` is exactly the text holding each part at its offset, in order, with the separator between each two neighbours, and no more (both directions) |
| Text.JoinIsLaid | frontend/src/terminal/TerminalContext.js:148-152 | `.join(sep)` lays every part out in order with the separator between each two neighbours |
| Text.LaidIsJoin | frontend/src/terminal/TerminalContext.js:148-152 | any text so laid out is the join of its parts |
| Text.SplitOnce | backend/terminal/terminal.py:188 | `split("=", 1)` cuts at the first `=`, and the key holds no `=` |
| Text.SplitLimit2Parts | frontend/src/terminal/TerminalContext.js:35-38 | `split("=", 2)` gives the same key as Python; its value stops before a second `=`, and without a second `=` the two splits agree |
| Text.ParseShowRoundTrip | backend/terminal/terminal.py:117 | `int(str(n)) == n`: an integer rendered in decimal parses back to itself |
| Text.ShowNatValue | backend/terminal/terminal.py:117 | the digits of a natural number are a digit part whose value is that number |
| Text.ParseDigits | backend/terminal/terminal.py:117 | `int()` of a digit part is its value |
| Text.ParseNegDigits | backend/terminal/terminal.py:117 | `int()` of a minus sign followed by a digit part is the negated value |
| Text.NoSpaceTrim | backend/terminal/terminal.py:117 | trimming text with no whitespace leaves it unchanged |
| Seqs.SetOfSize | backend/terminal/terminal.py:87-90 | `len(set(xs)) == len(xs)` holds exactly when no element repeats, so the size comparison is a duplicate test |
| Seqs.DistinctCons | backend/terminal/terminal.py:87-90 | a non-empty sequence is free of repeats exactly when its head is not in its tail and its tail is free of repeats |
| Seqs.DistinctSnoc | frontend/src/terminal/Command.js:61-67 | appending an element keeps a sequence free of repeats exactly when the element is new |
| OrderedTable.Find | backend/terminal/terminal.py:244 | a key is found at its first entry, and not found exactly when no entry has it |
| OrderedTable.PutGet | backend/terminal/terminal.py:246 | `Put` and `Get`: after `d[k] = v`, `k` reads `v`, every other key reads as before, and the keys stay unique |
| OrderedTable.AppendGet | backend/terminal/terminal.py:246 | writing a new key appends it as a readable entry and leaves the rest alone |
| OrderedTable.ReplaceGet | backend/terminal/terminal.py:246 | overwriting a key in place makes it read the new value and leaves the rest alone |
| OrderedTable.PutOther | backend/terminal/terminal.py:246 | writing a key never changes what another key reads |
| OrderedTable.PutSelf | backend/terminal/terminal.py:246 | a written key reads the written value, whatever else the table holds |
| OrderedTable.PutKeys | backend/terminal/terminal.py:246 | overwriting keeps the key order; a new key goes last |
| OrderedTable.RemoveAbsent | backend/terminal/terminal.py:250-251 | after `del d[k]` the key is absent and the keys stay unique; an absent key changes nothing |
| OrderedTable.RemoveOther | backend/terminal/terminal.py:250-251 | deleting a key leaves every other key's value as it was |
| OrderedTable.RemoveSpec | backend/terminal/terminal.py:250-251 | `Remove`: deleting a key from a table with unique keys removes exactly that key: it keeps the keys unique and every other key's value, and an absent key changes nothing |
| OrderedTable.RemoveKeys | backend/terminal/terminal.py:250-251 | deleting a key leaves the other keys in their order |
| Args.ShortOptionKey | backend/terminal/terminal.py:205-207 | `-l` without `=` names the key `l` |
| Args.Dashless | backend/terminal/terminal.py:188 | an option word loses one dash, or two for `--`, and keeps the rest of its text; two are dropped exactly when the word starts with `--` |
| Args.EqualsInDashless | backend/terminal/terminal.py:186 | an option word holds `=` exactly when its dashless text does |
| Args.NonOptions | backend/terminal/terminal.py:215-216 | the positional words are exactly the texts of words that are not options |
| Args.NonOptionsAppend | backend/terminal/terminal.py:215-216 | reading two runs of words keeps each run's positional words in order, the first run first |
| Args.NonOptionsStep | backend/terminal/terminal.py:215-216 | the positional words of a suffix are its first word, unless that word is an option, followed by the positional words of the rest |
| Args.OptionKeysStep | backend/terminal/terminal.py:185-214 | the keys of a suffix are the key its first word names, if any, plus the keys of the rest |
| HelpText.HelpLine | backend/terminal/terminal.py:29-34 | a help line starts with the bare name of a positional parameter, or `--name` otherwise |
| HelpText.StripPrefix | backend/terminal/terminal.py:29-34 | a prefix is removed exactly when it is there, and what is left completes the text |
| HelpText.IndexOfMark | backend/terminal/terminal.py:30-32 | finds the first `,` or `)`, and none comes before it |
| HelpText.ParseHelpLineRoundTrip | backend/terminal/terminal.py:29-34 | reading back a help line gives exactly the fields it was printed from: name, positional or not, alias, type name, required mark and description |
| HelpText.ParseAliasPart | backend/terminal/terminal.py:30 | the alias part is read back as the alias, or as no alias when it is empty |
| HelpText.ParseTailPart | backend/terminal/terminal.py:32-34 | the `, required` mark and the description are read back as printed |
| HelpText.ParseAfterNamePart | backend/terminal/terminal.py:34 | everything after the name is read back into the four fields it shows |
| HelpText.ParseNamePart | backend/terminal/terminal.py:33 | the name part is read back, with `--` exactly for a keyword parameter |
| HelpText.ParseParenthesisPart | backend/terminal/terminal.py:30-34 | the parenthesised part is read back into alias, type, mark and description |
| HelpText.ParseTypedPart | backend/terminal/terminal.py:31 | a type name is read back up to the next mark |
| HelpText.HelpStatement | backend/terminal/terminal.py:148-153 | the statement is `name - description` alone when the parameter hints are empty, and is followed by one tab-indented line per hint otherwise |
| HelpText.JoinIndented | backend/terminal/terminal.py:148-150 | `"\n\t" + "\n\t".join(lines)` puts a newline and a tab before each line |
| HelpText.JoinNonEmpty | backend/terminal/terminal.py:148-151 | the joined hints are empty exactly for no lines or a single empty line |
| Parameters.ParamLine | backend/terminal/terminal.py:29-34 | `Parameter.__repr__` (and `toString` at frontend/src/terminal/Command.js:30-36) shows the name, bare when positional and with `--` otherwise. It shows the alias only when truthy, the converter's name or `flag`, `required` only for a required keyword parameter, and the description. Each of these can be read back from the line |
| Parameters.ShownReadable | backend/terminal/terminal.py:29-34 | a parameter's help line reads back to the fields shown |
| Parameters.ParamLines | backend/terminal/terminal.py:149-150 | one help line per parameter, in order |
| Parameters.CommandHelp | backend/terminal/terminal.py:144-153 | `help_statement` (and `helpStatement` at frontend/src/terminal/Command.js:161-168) is `name - description` alone without parameters, and otherwise is followed by one tab-indented help line per parameter |
| Parameters.LinesNotBlank | backend/terminal/terminal.py:148-151 | a command with parameters always prints hints, because help lines are never empty |
| Parameters.Names | backend/terminal/terminal.py:87 | the parameter names, in order |
| Parameters.DistinctNamesLast | backend/terminal/terminal.py:89-90 | with distinct names, no later parameter shares a name with an earlier one |
| PyCommand.DocLines | backend/terminal/terminal.py:75-77 | one stripped line per docstring line |
| PyCommand.FirstWithPrefix | backend/terminal/terminal.py:76-79 | the search stops at the first line with the prefix, and finds none exactly when no line has it |
| PyCommand.Describe | backend/terminal/terminal.py:72-79 | an inferred description is the first stripped docstring line starting with `name:`, and is empty exactly when there is none |
| PyCommand.NonSelf | backend/terminal/terminal.py:60-63 | inference skips exactly the parameters named `self` and keeps the order |
| PyCommand.Infer | backend/terminal/terminal.py:58-84 | one inferred parameter per signature entry other than `self`: typed by its annotation, positional exactly when it has no default, not required, without an alias, and described from the docstring |
| PyCommand.SetAliases | backend/terminal/terminal.py:88 | the truthy aliases are those of the parameters that set one |
| PyCommand.NewCommand | backend/terminal/terminal.py:42-92 | a non-callable raises `func must be callable`. Construction succeeds exactly when names and truthy aliases are distinct. Repeated names raise the duplicate-names error; with distinct names, repeated truthy aliases raise the duplicate-aliases error. The name defaults to the function's, and explicit parameters override inference |
| PyCommand.InferredCommandAccepted | backend/terminal/terminal.py:55-92 | a command whose parameters are inferred from a signature with distinct names is always accepted |
| PyCommand.NoAliases | backend/terminal/terminal.py:88 | parameters without aliases contribute no aliases to the check |
| PyCommand.SigNames | backend/terminal/terminal.py:60 | the signature's names, in order |
| PyCommand.NonSelfNamesDistinct | backend/terminal/terminal.py:60-63 | dropping `self` keeps a signature's names distinct |
| PyCommand.CoerceAccepts | backend/terminal/terminal.py:115-122 | `Coerce`: `str` accepts every value; `int` accepts exactly the integer literals written with ASCII digits (and `True`), giving their value; `float` accepts exactly the float literals written with ASCII digits (and `True`) |
| PyCommand.CoerceShownInt | backend/terminal/terminal.py:117 | converting the text of an integer with `int` gives that integer |
| PyCommand.BindFrom | backend/terminal/terminal.py:99-140 | the validation loop succeeds exactly when every remaining parameter is accepted |
| PyCommand.FirstBad | backend/terminal/terminal.py:101-140 | the first parameter not accepted: all before it are accepted |
| PyCommand.BindFromError | backend/terminal/terminal.py:101-140 | `KeywordPart` then `PositionalPart`, per parameter: a failing loop raises the error of the first parameter not accepted |
| PyCommand.StoreContribution | backend/terminal/terminal.py:117-135 | one parameter stores its contribution (positional over keyword) under its name and nothing else |
| PyCommand.BindFromKeys | backend/terminal/terminal.py:100-135 | the bound names are exactly those of parameters that contribute a value |
| PyCommand.BindFromValues | backend/terminal/terminal.py:100-135 | each name holds the contribution of the last parameter of that name that made one |
| PyCommand.BindFromValue | backend/terminal/terminal.py:100-135 | one contributing parameter whose name no later parameter reuses ends up bound to its own contribution |
| PyCommand.BindFromKeeps | backend/terminal/terminal.py:100-135 | a name no later parameter mentions keeps its value |
| PyCommand.Call | backend/terminal/terminal.py:94-142 | a truthy `h`/`help` gives the help statement. Otherwise the call succeeds exactly when every parameter is accepted, and fails with the first refused parameter's error. On success the bound keywords are exactly the contributing parameters' names, each with its contribution |
| PyTerminal.TerminalHelpText | backend/terminal/terminal.py:253-255 | every command's help statement, in table order, with a newline between neighbours; one command prints just its help, and no commands print nothing |
| PyTerminal.PyToken | backend/terminal/terminal.py:186-216 | a word starting with `-` names a key: the dashless text before the first `=`, or the whole dashless text. It has an inline value exactly when it holds `=` |
| PyTerminal.PyTokenSplits | backend/terminal/terminal.py:188 | an option word with `=` is, after its dashes, its key, `=` and its value |
| PyTerminal.PyTokens | backend/terminal/terminal.py:185 | one token per word, in order |
| PyTerminal.FirstSame | backend/terminal/terminal.py:194 | `command_split.index(item)` finds the first word with the same text |
| PyTerminal.SetOption | backend/terminal/terminal.py:189-214 | an option word sets its own key to its value and leaves the other keys alone |
| PyTerminal.PyParseArgs | backend/terminal/terminal.py:215-216 | every word after the command that does not start with `-` is a positional argument, including the words used as option values |
| PyTerminal.PyParseKeys | backend/terminal/terminal.py:185-214 | the keyword names are exactly those the option words name |
| PyTerminal.PyParseValues | backend/terminal/terminal.py:185-214 | a key holds the value its last option word gives |
| PyTerminal.PyParseKeeps | backend/terminal/terminal.py:185-214 | a key no later option word names keeps its value |
| PyTerminal.TokensOfAdd | backend/terminal/terminal.py:205-216 | the tokens of `add hello -l fr` |
| PyTerminal.ValueAlsoArgument | backend/terminal/terminal.py:205-216 | `add hello -l fr` gives arguments `hello fr` and `l = fr`: the option value is also a positional argument |
| PyTerminal.TokensOfRepeat | backend/terminal/terminal.py:205-216 | the tokens of `cmd -a x -a y` |
| PyTerminal.RepeatedOptionFirstValue | backend/terminal/terminal.py:208-212 | `-a x -a y` binds `a` to `x`, because `index` finds the first `-a` |
| PyTerminal.PyTokenizeCommand | backend/terminal/terminal.py:181-182 | the command is the first word, and `None` exactly when there are no words |
| PyTerminal.PyTokenizeSpec | backend/terminal/terminal.py:180-218 | `PyTokenize` is `_parse_command`: no command exactly for a blank line; the arguments are the non-option words after it; the keys are those the options name, each with its last option's value |
| PyTerminal.Attach | backend/terminal/terminal.py:240-246 | a non-command raises. A command becomes readable under its name, replacing one of the same name in its place or being appended |
| PyTerminal.AttachAll | backend/terminal/terminal.py:177-178 | attaching a list succeeds exactly when every element is a command; otherwise it raises the not-a-command error |
| PyTerminal.AttachAllKeepsFirst | backend/terminal/terminal.py:169-178 | `help` stays the first command, and stays the built-in one unless a command named `help` replaces it |
| PyTerminal.NewTerminalHasHelp | backend/terminal/terminal.py:166-178 | `NewTerminal`: every terminal lists `help` first |
| PyTerminal.Detach | backend/terminal/terminal.py:248-251 | the name is no longer a command, every other command is unchanged, and an absent name changes nothing |
| PyTerminal.AttachAllUnique | backend/terminal/terminal.py:177-178 | attaching keeps the command names unique |
| PyTerminal.HelpsOf | backend/terminal/terminal.py:255 | one help statement per command, in table order |
| PyTerminal.HandleInput | backend/terminal/terminal.py:220-238 | every reply counts as handled. A blank line is answered with nothing and not recorded; any other line is recorded in the history |
| PyTerminal.DispatchOutcomes | backend/terminal/terminal.py:224-238 | `Dispatch` answers a non-blank line: an unknown command gives `Command not found.`; a help request gives the help; a binding error gives its error line; every reply is empty or ends in a newline |
| PyTerminal.DispatchResults | backend/terminal/terminal.py:224-238 | for a known command: a `self` keyword gives the "multiple values" error line. Otherwise the reply follows what the user function did: nothing for `None` or `""`, the string and a newline, or the error line of what it raised |
| PyTerminal.ResultText | backend/terminal/terminal.py:233-238 | the reply is empty exactly for `None` and `""`, and otherwise ends in a newline: a string followed by it, an exception's error line, or for any other type the error line of the `TypeError` from adding `"\n"` |
| PyTerminal.ExecuteOutcomes | backend/terminal/terminal.py:232-238 | `Execute` runs a found command: a `self` keyword clashes first; then help, a binding error, the built-in `help`'s listing, or the user function's result or exception decide the reply, which always ends in a newline when not empty |
| PyTerminal.HelpNotEmpty | backend/terminal/terminal.py:144-153 | a help statement is never empty |
| PyTerminal.DefaultTerminalCommands | backend/terminal/terminal.py:258-277 | the default terminal lists `help`, `clear`, `status`: the second `clear` replaces the first in its place |
| PyContext.Push | backend/terminal/input_context_handler.py:15-16 | the pushed terminal becomes the top, above the old stack |
| PyContext.Pop | backend/terminal/input_context_handler.py:18-21 | the top is removed and returned; an empty stack gives `None` |
| PyContext.PopPush | backend/terminal/input_context_handler.py:15-21 | popping undoes a push |
| PyContext.PopLast | backend/terminal/input_context_handler.py:18-21 | the last terminal can be popped, which leaves the stack empty |
| PyContext.Construct | backend/terminal/input_context_handler.py:9-13 | the first construction stores its list, and every later one returns the same instance |
| PyContext.ConstructTwice | backend/terminal/input_context_handler.py:9-13 | a second construction ignores its handlers |
| PyContext.HandleInput | backend/terminal/input_context_handler.py:26-28 | an empty stack raises `No input handlers available` |
| PyContext.TopHandles | backend/terminal/input_context_handler.py:31-34 | when the top handles the line, the reply is its output followed by the prompt of whichever terminal is on top afterwards |
| PyContext.PoppedEmpty | backend/terminal/input_context_handler.py:34-36 | a command that pops the last terminal leaves no prompt: the resulting `IndexError` becomes the reply, unhandled |
| PyContext.ThrowIsUnhandled | backend/terminal/input_context_handler.py:35-36 | an exception in any terminal becomes its message and `False` |
| PyContext.Responder | backend/terminal/input_context_handler.py:31-33 | the answering terminal is the highest one that raises or handles; every terminal above it declines |
| PyContext.StableLoop | backend/terminal/input_context_handler.py:30-37 | `Loop`: with a stack no command changes, the terminals are tried from the top down: the first that raises or handles gives the answer, and if none does the reply is `("", False)` |
| CommandHistory.Record | backend/api/views.py:71 | a recorded command becomes the newest entry, after all older ones |
| CommandHistory.PostCommand | backend/api/views.py:63-79 | an empty command is refused with `Parameter 'command' is required.`; any other is recorded |
| CommandHistory.MostRecentFirst | backend/terminal/models.py:22 | ordering by descending timestamp lists the newest first |
| CommandHistory.GetLastCommand | backend/terminal/models.py:16-25 | index `i` gives the `i`-th newest entry. An index past the end is clamped to the oldest entry. A negative index or an empty history finds nothing, and the returned index is the clamped one |
| CommandHistory.RecordShifts | backend/terminal/models.py:16-25 | the line just recorded is the newest, and every older line moves one place back |
| HistoryNav.ServerAnswer | backend/api/views.py:21-43 | the endpoint finds a command exactly for a non-empty history and a non-negative index, and returns the clamped index with its line |
| HistoryNav.LocalAgreesWithServer | frontend/src/terminal/Terminal.js:196-203 | when the page's lines are the newest the server holds, reading locally gives the server's line |
| HistoryNav.NavigateAgrees | frontend/src/terminal/Terminal.js:185-215 | `Navigate`: with a consistent server, local reading and asking the server for every index agree |
| HistoryNav.UpDownRestores | frontend/src/terminal/Terminal.js:185-195 | Up then Down from the input line brings back the line being typed |
| HistoryNav.IndexBounded | frontend/src/terminal/Terminal.js:185-215 | with a non-empty server history, the index stays between -1 and the oldest entry |
| HistoryNav.DriftOnEmptyHistory | frontend/src/terminal/Terminal.js:196-214 | over an empty history every request fails, yet the index still rises with each Up |
| JsCommand.FirstClash | frontend/src/terminal/Command.js:61-76 | the first parameter whose name or truthy alias repeats an earlier one |
| JsCommand.CheckFrom | frontend/src/terminal/Command.js:58-76 | the duplicate loop throws exactly when there is a clash, with the message of the first clash (the name is checked before the alias) |
| JsCommand.NextSets | frontend/src/terminal/Command.js:67-74 | each step adds the name, and the alias when it is truthy |
| JsCommand.NewCommand | frontend/src/terminal/Command.js:49-77 | a non-function throws `func must be a function`. Construction succeeds exactly when no parameter clashes; otherwise it throws the first clash's message. The name defaults to the function's and the parameters default to none |
| JsCommand.NoClashIffDistinct | frontend/src/terminal/Command.js:58-76 | the constructor accepts exactly the parameter lists with distinct names and distinct truthy aliases |
| JsCommand.NamesDistinct | frontend/src/terminal/Command.js:61-67 | no name repeats an earlier one exactly when the names are distinct |
| JsCommand.AliasesDistinct | frontend/src/terminal/Command.js:68-74 | no truthy alias repeats an earlier one exactly when the truthy aliases are distinct |
| JsCommand.SplitCallArgs | frontend/src/terminal/Command.js:86-94 | a final plain-object argument is split off as the keyword object; otherwise the keywords are empty |
| JsCommand.SplitTokens | frontend/src/terminal/Command.js:86-94 | the strings and keyword object `handleCommand` passes are split back into the two |
| JsCommand.Texts | frontend/src/terminal/TerminalContext.js:67-69 | one string value per argument, in order |
| JsCommand.StoreContribution | frontend/src/terminal/Command.js:113-142 | one parameter stores its contribution (positional over keyword) under its name and nothing else |
| JsCommand.BindFrom | frontend/src/terminal/Command.js:100-150 | the binding loop succeeds exactly when no remaining parameter is refused |
| JsCommand.FirstBad | frontend/src/terminal/Command.js:102-150 | the first refused parameter: all before it are accepted |
| JsCommand.BindFromError | frontend/src/terminal/Command.js:102-150 | a failing loop throws the error of the first refused parameter |
| JsCommand.BindFromKeys | frontend/src/terminal/Command.js:101-142 | the bound names are exactly those of contributing parameters |
| JsCommand.BindFromValues | frontend/src/terminal/Command.js:101-142 | each name holds the contribution of the last parameter of that name that made one |
| JsCommand.BindFromKeeps | frontend/src/terminal/Command.js:101-142 | a name no later parameter mentions keeps its value |
| JsCommand.Call | frontend/src/terminal/Command.js:85-155 | a truthy `h`/`help` gives the help statement. Otherwise the call succeeds exactly when no parameter is refused, and throws the first refusal. The keyword object holds exactly the contributing parameters' names, each with its contribution |
| JsCommand.OptionalPositionalAbsent | frontend/src/terminal/Command.js:130-148 | an optional positional parameter without an argument is accepted and binds nothing |
| JsContext.JsToken | frontend/src/terminal/TerminalContext.js:33-69 | a word starting with `-` names a key: the dashless text before the first `=`, or the whole dashless text. It has an inline value exactly when it holds `=` |
| JsContext.JsTokenSplits | frontend/src/terminal/TerminalContext.js:35-38 | an option word with `=` starts, after its dashes, with its key, `=` and a value that holds no `=` |
| JsContext.JsTokens | frontend/src/terminal/TerminalContext.js:32 | one token per word, in order |
| JsContext.Next | frontend/src/terminal/TerminalContext.js:42-47 | the loop always moves forward |
| JsContext.SetJsOption | frontend/src/terminal/TerminalContext.js:35-66 | an option word sets its own key to its value and leaves the other keys alone |
| JsContext.JsParseArgs | frontend/src/terminal/TerminalContext.js:32-69 | the arguments are exactly the words that neither name a key nor were consumed as a value |
| JsContext.JsParseKeys | frontend/src/terminal/TerminalContext.js:32-69 | the keys are exactly those the option words name |
| JsContext.JsParseValues | frontend/src/terminal/TerminalContext.js:32-69 | a key holds the value its last option word gives |
| JsContext.JsParseKeeps | frontend/src/terminal/TerminalContext.js:32-69 | a key no later option word names keeps its value |
| JsContext.JsTokenizeSpec | frontend/src/terminal/TerminalContext.js:27-73 | `JsTokenize` is `_parseCommand`: no command exactly for a blank line, otherwise the first word; the arguments are the free words; the keys and values come from the option words |
| JsContext.JsCommandWord | frontend/src/terminal/TerminalContext.js:28-30 | the command is absent exactly for a blank line, and otherwise is the first word |
| JsContext.TokensOfAdd | frontend/src/terminal/TerminalContext.js:55-66 | the tokens of `add hello -l fr` |
| JsContext.ValueNotArgument | frontend/src/terminal/TerminalContext.js:55-69 | `add hello -l fr` gives argument `hello` and `l = fr`: the value is consumed, unlike in Python |
| JsContext.Attach | frontend/src/terminal/TerminalContext.js:130-140 | a non-command throws. A command replaces one of the same name in its place, or is appended |
| JsContext.AttachOthers | frontend/src/terminal/TerminalContext.js:130-140 | attaching a command leaves what every other name reads unchanged |
| JsContext.AttachAll | frontend/src/terminal/TerminalContext.js:6-25 | attaching a list succeeds exactly when every element is a command |
| JsContext.AttachAllKeepsHelp | frontend/src/terminal/TerminalContext.js:6-25 | `help` stays the first command |
| JsContext.NewContextHasHelp | frontend/src/terminal/TerminalContext.js:6-25 | `NewContext`: every context lists `help` first |
| JsContext.Detach | frontend/src/terminal/TerminalContext.js:142-146 | the name is no longer a command, every other command is unchanged, and an absent name changes nothing |
| JsContext.ContextHelpText | frontend/src/terminal/TerminalContext.js:148-152 | every command's help, in table order, on its own line with a newline between neighbours; a context with only `help` prints just that command's help, and an empty table prints nothing |
| JsContext.HelpsOf | frontend/src/terminal/TerminalContext.js:148-152 | one help statement per command, in table order |
| JsContext.AfterCallEnds | frontend/src/terminal/TerminalContext.js:119-127 | whatever the call does, the last effect clears the waiting flag |
| JsContext.HandleFound | frontend/src/terminal/TerminalContext.js:103-127 | `HandleCommand`, for a known command: the help lines when asked, then `setWaiting(true)`, then the call |
| JsContext.CallParameterless | frontend/src/terminal/TerminalContext.js:119-127 | `AfterCall` and `RunFunc`: a parameterless command runs its function with no keywords, then prints any error and clears the flag |
| JsContext.HandleParameterless | frontend/src/terminal/TerminalContext.js:86-128 | a parameterless command whose function throws nothing gives its effects, bracketed by the waiting flag |
| JsContext.HandleBlank | frontend/src/terminal/TerminalContext.js:87-89 | a blank line does nothing |
| JsContext.HandleNotFound | frontend/src/terminal/TerminalContext.js:98-101 | an unknown command only prints `Command not found.` |
| JsContext.HandleWaits | frontend/src/terminal/TerminalContext.js:115-127 | a known command sets the waiting flag and always clears it at the end |
| JsContext.HandleHelp | frontend/src/terminal/TerminalContext.js:115-123 | a help request prints the help and a blank line, and runs nothing |
| JsContext.HandleParamError | frontend/src/terminal/TerminalContext.js:119-127 | a refused argument is reported with the command name and runs nothing |
| JsContext.HandleKey | frontend/src/terminal/TerminalContext.js:75-84 | only Ctrl+C acts: it echoes `^C`, shows the prompt exactly when no command is running, and clears the flag |
| JsContext.CreateRelation | frontend/src/terminal/TerminalContext.js:154-178 | the parent gains a command entering the child under the given name, or under `switchTerminals` when the name is empty (the Command constructor falls back to its function's name, and the entering function is `switchTerminals`); the child gains `exit`; the other contexts are unchanged |
| JsTerminal.DefaultCommands | frontend/src/terminal/TerminalContext.js:181-279 | the default context's objects are all commands |
| JsTerminal.DefaultContext | frontend/src/terminal/TerminalContext.js:181 | the default context's prompt is `user@terminal:~$ ` |
| JsTerminal.Registry | frontend/src/terminal/Terminal.js:31-39 | the constructor relates `default` to `words`: `words` enters the words context, which gains `exit` |
| JsTerminal.Relate | frontend/src/terminal/Terminal.js:33-39 | relating two contexts installs the entering and exiting commands and keeps the prompts |
| JsTerminal.ClearLine | frontend/src/terminal/Terminal.js:74-85 | the trimmed line is echoed with the postfix and kept in the page's history when not empty; input, saved line and index reset |
| JsTerminal.PopStack | frontend/src/terminal/Terminal.js:108-115 | the last context is never popped; a popped one is reported as `[object Object]` |
| JsTerminal.ApplyAllAppend | frontend/src/terminal/Terminal.js:42-115 | `Apply`, one effect at a time: applying two runs of effects is applying one after the other |
| JsTerminal.StackNeverEmpties | frontend/src/terminal/Terminal.js:108-115 | no sequence of effects empties the context stack |
| JsTerminal.StackStaysRegistered | frontend/src/terminal/Terminal.js:103-115 | every context on the stack is one the effects could push |
| JsTerminal.EffectsKeepNav | frontend/src/terminal/Terminal.js:74-85 | effects only reset the navigation state, so they add nothing to the page's history |
| JsTerminal.Current | frontend/src/terminal/Terminal.js:117-122 | a current context exists exactly when the stack's top is known |
| JsTerminal.ContextHandler | frontend/src/terminal/Terminal.js:172-183 | the component hands the line to the context's own `handleCommand` |
| JsTerminal.SubmitShape | frontend/src/terminal/Terminal.js:172-183 | `Submit`: a submission applies the context's effects, then prints the new current prompt |
| JsTerminal.SubmitKeepsInStep | frontend/src/terminal/Terminal.js:172-183 | the page's history stays the newest part of the server's, and navigation resets |
| JsTerminal.SubmitEntersChild | frontend/src/terminal/TerminalContext.js:154-167 | entering a child pushes it, prints the welcome and shows the child's prompt |
| JsTerminal.EnterSteps | frontend/src/terminal/TerminalContext.js:158-166 | the entering effects push the child and print the welcome |
| JsTerminal.ExitSteps | frontend/src/terminal/TerminalContext.js:168-176 | the `exit` effects pop the context (or report there is none) and print `Bye!` |
| JsTerminal.SubmitExits | frontend/src/terminal/TerminalContext.js:168-176 | `exit` returns to the parent with its prompt; in the root context it reports there is no context to pop |
| JsTerminal.EnterEffects | frontend/src/terminal/TerminalContext.js:158-166 | the entering command's effects: waiting, push, welcome, newline, done |
| JsTerminal.ExitEffects | frontend/src/terminal/TerminalContext.js:168-176 | the `exit` command's effects: waiting, pop, `Bye!`, done |
| JsTerminal.KeyDown | frontend/src/terminal/Terminal.js:249-270 | nothing happens while waiting. Escape clears the line; a held Down restores the saved line; Up and Down change only the navigation state |
| JsTerminal.UpThenDown | frontend/src/terminal/Terminal.js:249-270 | Up then Down from the input line gives back the line being typed |
| JsTerminal.InputChange | frontend/src/terminal/Terminal.js:272-278 | typing sets both the line and the saved line |
| JsTerminal.ClampCaret | frontend/src/terminal/Terminal.js:167-169 | a caret past the end of the line moves to the end |
| JsTerminal.WindowKey | frontend/src/terminal/Terminal.js:218-237 | Ctrl+C leaves a cleared line and a component that no longer waits; other keys change nothing |
| JsTerminal.CtrlCResets | frontend/src/terminal/TerminalContext.js:75-84 | the Ctrl+C effects leave a cleared line and no waiting |
| ClientTerminal.Mounted | frontend/src/Terminal.js:40-45 | the transcript starts with the message and the default prompt; no navigation, no loading |
| ClientTerminal.Settle | frontend/src/Terminal.js:188-207 | the effects keep the saved line equal to the input while not navigating, and keep the caret inside the line |
| ClientTerminal.OnInput | frontend/src/Terminal.js:195-198 | typing sets the line; the saved line follows it only while not navigating |
| ClientTerminal.Begin | frontend/src/Terminal.js:209-238 | the line is echoed and reset. While loading nothing is kept or sent. Otherwise a non-empty line is kept in the page's history and sent, marked handled exactly for `clear`, which also empties the transcript |
| ClientTerminal.Finish | frontend/src/Terminal.js:239-263 | a non-empty prompt from the server replaces the current one, and a failed request restores the default. The reply is appended; a failed post appends the error and the prompt the submission saw |
| ClientTerminal.SubmitWhileLoading | frontend/src/Terminal.js:211-217 | a line submitted while loading is echoed but neither kept nor sent |
| ClientTerminal.FailedPostShowsOldPrompt | frontend/src/Terminal.js:241-262 | a failed post prints the prompt captured before the prompt request changed it |
| ClientTerminal.ClearIsClientSide | frontend/src/Terminal.js:4-10 | only `clear` is handled by the page, and it leaves just the server's message |
| ClientTerminal.AgreesWithClassComponent | frontend/src/Terminal.js:209-221 | outside a running submission, and for any line but `clear`, the echo, page history and navigation reset agree with the class component's |
| ClientTerminal.Hold | frontend/src/Terminal.js:83-88 | an auto-repeating Up or Down marks that key held |
| ClientTerminal.InputKeyDown | frontend/src/Terminal.js:82-109 | only Enter submits, and it submits the line as `handleSubmit` does |
| ClientTerminal.KeyUp | frontend/src/Terminal.js:124-128 | releasing an arrow key clears its hold flag only |
| ClientTerminal.HeldUpIgnored | frontend/src/Terminal.js:89-93 | a held Up only sets its flag |
| ClientTerminal.HeldDownRestores | frontend/src/Terminal.js:97-100 | a held Down goes back to the saved line |
| ClientTerminal.ReleaseThenUp | frontend/src/Terminal.js:124-128 | once released, Up navigates again |
| ClientTerminal.UpDownRestoresTyped | frontend/src/Terminal.js:52-80 | from a settled line, Up then Down brings the typed line back |
| ClientTerminal.EscapeForgets | frontend/src/Terminal.js:104-107 | Escape clears the line, and the saved line follows it, so a later held Down gives an empty line |
| ClientTerminal.EditWhileNavigatingLost | frontend/src/Terminal.js:188-193 | an edit made while a history line is shown is lost on returning |
| ClientTerminal.KeyDownSettles | frontend/src/Terminal.js:82-109 | every key leaves the component settled |
| Santa.Swap | frontend/src/scripts/SantaSelector.js:95 | the swap exchanges two entries and keeps the rest: a permutation |
| Santa.SwapDistinct | frontend/src/scripts/SantaSelector.js:95 | swapping keeps a sequence free of repeats |
| Santa.ShuffleFrom | frontend/src/scripts/SantaSelector.js:93-96 | each remaining step of the loop keeps a permutation |
| Santa.Shuffle | frontend/src/scripts/SantaSelector.js:92-98 | `shuffleArray` returns a permutation of its input |
| Santa.ShuffleFromDistinct | frontend/src/scripts/SantaSelector.js:93-96 | shuffling keeps the members free of repeats |
| Santa.ShuffleMembers | frontend/src/scripts/SantaSelector.js:92-98 | the shuffled keys are the same members, still distinct |
| Santa.LastIndex | frontend/src/scripts/SantaSelector.js:102-104 | the last position of a name in a row |
| Santa.LastRow | frontend/src/scripts/SantaSelector.js:101-106 | the last group listing a name, or none |
| Santa.RowPutGet | frontend/src/scripts/SantaSelector.js:102-104 | a row's loop records each name at its last position in that row |
| Santa.LookupLastWins | frontend/src/scripts/SantaSelector.js:100-107 | `GroupLookup`: every member maps to its last group and its last position there; a name listed twice keeps only the last |
| Santa.RowPutUnique | frontend/src/scripts/SantaSelector.js:102-104 | each row's loop keeps the keys unique |
| Santa.LookupUnique | frontend/src/scripts/SantaSelector.js:100-107 | the table lists each member once |
| Santa.MemberKeys | frontend/src/scripts/SantaSelector.js:15 | `Object.keys` lists exactly the listed members, once each |
| Santa.MaximalGroup | frontend/src/scripts/SantaSelector.js:45-52 | the receiver group is another group, or -1 |
| Santa.MaxScanSpec | frontend/src/scripts/SantaSelector.js:47-52 | the scan keeps the last of the largest non-negative counts seen so far |
| Santa.MaximalGroupSpec | frontend/src/scripts/SantaSelector.js:45-52 | the receiver group has the most unmatched members among the others, ties going to the later group; -1 exactly when every other count is negative |
| Santa.FirstWhere | frontend/src/scripts/SantaSelector.js:54-56 | `find` gives the first match, or none when nothing matches |
| Santa.SeekGroup | frontend/src/scripts/SantaSelector.js:54-56 | the first unvisited member of the receiver group in the half being sought |
| Santa.SeekOther | frontend/src/scripts/SantaSelector.js:62-71 | the fallback: the first unvisited member of another group who is not the previous giver |
| Santa.Receiver | frontend/src/scripts/SantaSelector.js:54-74 | the receiver is an unvisited member of another group, or else the starting member |
| Santa.Step | frontend/src/scripts/SantaSelector.js:41-85 | one turn marks the giver visited and records one match from it, to the start or to a member of another group |
| Santa.StepExtends | frontend/src/scripts/SantaSelector.js:58-84 | a turn extends the chain by one match |
| Santa.ChainExtend | frontend/src/scripts/SantaSelector.js:77 | appending a match from the current giver keeps a chain from the start |
| Santa.WalkFrom | frontend/src/scripts/SantaSelector.js:41-85 | the loop ends with a chain of matches from the starting member back to it, each member giving at most once; a match that does not return to the start joins two groups |
| Santa.CrossingExtend | frontend/src/scripts/SantaSelector.js:54-77 | a match to a member of another group, or back to the start, keeps every non-closing match between two groups |
| Santa.ClosedCrossing | frontend/src/scripts/SantaSelector.js:41-85 | in a finished walk only the closing match returns to the start, so every other match joins two groups |
| Santa.StepProgress | frontend/src/scripts/SantaSelector.js:41-85 | each turn visits a new member, so the loop ends within as many turns as there are members |
| Santa.VisitShrinks | frontend/src/scripts/SantaSelector.js:58 | visiting a new member leaves fewer to visit |
| Santa.FirstTooBig | frontend/src/scripts/SantaSelector.js:23-29 | the first group longer than half the members |
| Santa.SantaSelector | frontend/src/scripts/SantaSelector.js:1-89 | no groups throws the invalid-input error. A group over half the members throws `Group <n> has too many members…` for the first such group, and any other failure means there are no members. A success is a closed chain of matches between listed members, each giving at most once, where every match but the closing one joins two different groups. It has at least two matches, so nobody gives to themselves. With three or more members it has at least three matches, so no two members give to each other |
| Santa.MatchKeys | frontend/src/scripts/SantaSelector.js:19-89 | after the shuffle, the call fails exactly when a group is over half, or there are no keys. A success has at least two matches, and at least three with three or more keys |
| Santa.TooBigIff | frontend/src/scripts/SantaSelector.js:23-29 | the check throws exactly when some group is longer than half the members |
| Santa.SelectorFails | frontend/src/scripts/SantaSelector.js:19-29 | after the shuffle, the half-size check fails exactly as it would on the unshuffled members, naming the first group that is too big |
| Santa.SelectorMatches | frontend/src/scripts/SantaSelector.js:34-85 | the walk over the shuffled members is a closed chain over those members, crossing groups at every match but the closing one. It has no self-gift, and with three or more members no 2-cycle |
| Santa.WalkKeys | frontend/src/scripts/SantaSelector.js:22-85 | the walk starts at the first member of the second half and closes back on it; every match but the last joins two groups. Once the half-size check passes, it has at least two matches, and at least three with three or more keys |
| Santa.WalkStarts | frontend/src/scripts/SantaSelector.js:34-39 | the halves and the starting member satisfy the walk's invariant, with nothing visited and no match yet |
| Santa.WalkKeysSpec | frontend/src/scripts/SantaSelector.js:34-85 | the walk from the first member of the second half is a matching of the keys that begins at that member |
| Santa.ClosedMatching | frontend/src/scripts/SantaSelector.js:41-85 | a finished chain over distinct keys that crosses groups is a matching of those keys, beginning at the start |
| Santa.WalkKeysLength | frontend/src/scripts/SantaSelector.js:22-85 | once the half-size check passes, the walk has at least two matches, and at least three with three or more keys |
| Santa.FirstTurns | frontend/src/scripts/SantaSelector.js:22-85 | from the first giver, with no group over half, the chain does not close in one turn, nor in two with three or more members |
| Santa.TurnOne | frontend/src/scripts/SantaSelector.js:41-85 | after the first turn the loop goes on from a new giver, with the first giver visited and one match made |
| Santa.FirstTurn | frontend/src/scripts/SantaSelector.js:22-74 | the first giver's receiver is someone else, since not every member can share the giver's group |
| Santa.SecondTurns | frontend/src/scripts/SantaSelector.js:41-85 | with three or more members, the walk from the second giver ends with at least three matches in all |
| Santa.SecondTurn | frontend/src/scripts/SantaSelector.js:22-74 | with three or more members, the second giver's receiver is not the start, since `n - 1` members cannot all share one group |
| Santa.WalkOn | frontend/src/scripts/SantaSelector.js:76-85 | a turn that does not return to the start adds one match, and the loop goes on with its invariant kept |
| Santa.ReceiverFallback | frontend/src/scripts/SantaSelector.js:54-74 | the receiver falls back to the start only when every member of either half is visited, is the giver, or shares the giver's group |
| Santa.GroupCap | frontend/src/scripts/SantaSelector.js:19-29 | distinct members that share group `g`, but for one, number at most the group's length plus one |
| Santa.ChainClaims | frontend/src/scripts/SantaSelector.test.js:10-17 | a closed chain with distinct givers has no self-gift once it has two matches, and no 2-cycle once it has three |
| Santa.SuccessHasTwo | frontend/src/scripts/SantaSelector.js:22-29 | a successful call has at least two members |
| Santa.LoneMemberTooBig | frontend/src/scripts/SantaSelector.js:24 | a single member is more than half of one |
| SantaCases.SameGroupPair | frontend/src/scripts/SantaSelector.test.js:10-13 | the groups `[[a,b],[c],[d]]` with draws 3,1,1 give matches `b→c, c→d, d→a, a→b`: `a` gives to `b`, of its own group, which the test suite's check forbids |
| SantaCases.MatchOfThree | frontend/src/scripts/SantaSelector.js:19-89 | the keys `a c b d` give those matches |
| SantaCases.FitsOfThree | frontend/src/scripts/SantaSelector.js:23-29 | no group of `[[a,b],[c],[d]]` is over half |
| SantaCases.KeysOfThree | frontend/src/scripts/SantaSelector.js:15 | the keys of `[[a,b],[c],[d]]` in insertion order |
| SantaCases.LookupOfTwo | frontend/src/scripts/SantaSelector.js:100-107 | the lookup table of the first two groups |
| SantaCases.LookupOfThree | frontend/src/scripts/SantaSelector.js:100-107 | the lookup table of all three groups |
| SantaCases.ShuffleOfThree | frontend/src/scripts/SantaSelector.js:92-98 | draws 3,1,1 shuffle `a b c d` to `a c b d` |
| SantaCases.DrawsOfThree | frontend/src/scripts/SantaSelector.js:94 | 3,1,1 are valid draws for four members |
| SantaCases.SwapsOfThree | frontend/src/scripts/SantaSelector.js:95 | the three swaps of that shuffle |
| SantaCases.MembersOfThree | frontend/src/scripts/SantaSelector.js:15 | the keys `a c b d` are distinct and each is listed in a group |
| SantaCases.WalkOfThree | frontend/src/scripts/SantaSelector.js:34-85 | the walk over `a c b d` |
| SantaCases.WalkFromThree | frontend/src/scripts/SantaSelector.js:41-85 | the loop from `b` |
| SantaCases.StepOfThree0 | frontend/src/scripts/SantaSelector.js:54-74 | `b` finds no member of group 2 on the left and falls back to `c` |
| SantaCases.StepOfThree1 | frontend/src/scripts/SantaSelector.js:54-74 | `c` finds `b` visited and takes `d` |
| SantaCases.ReceiverOfThree1 | frontend/src/scripts/SantaSelector.js:54-74 | the receiver for `c` is `d` |
| SantaCases.StepOfThree2 | frontend/src/scripts/SantaSelector.js:54-56 | `d` takes `a` |
| SantaCases.StepOfThree3 | frontend/src/scripts/SantaSelector.js:62-73 | `a` finds everyone visited and falls back to `b`, of its own group |
| SantaCases.ReceiverOfThree3 | frontend/src/scripts/SantaSelector.js:73 | the receiver for `a` is the starting member `b` |
| SantaCases.TwoMembersCycle | frontend/src/scripts/SantaSelector.test.js:15-17 | `[[a],[b]]` gives the 2-cycle `b→a, a→b`, which the test suite's check forbids |
| SantaCases.ShuffleOfTwo | frontend/src/scripts/SantaSelector.js:92-98 | draw 1 leaves `a b` as it is |
| SantaCases.KeysOfTwo | frontend/src/scripts/SantaSelector.js:15 | the keys of `[[a],[b]]` |
| SantaCases.MatchOfTwo | frontend/src/scripts/SantaSelector.js:19-89 | the keys `a b` give the 2-cycle |
| SantaCases.WalkFromTwo | frontend/src/scripts/SantaSelector.js:41-85 | `b` gives to `a`, and `a` falls back to `b` |
| SantaCases.StepsOfTwo | frontend/src/scripts/SantaSelector.js:41-85 | the two turns of that walk |
| GroupEditing.SliceTo | frontend/src/App.js:16 | `slice(0, k)` keeps the first `k` elements, or all of them |
| GroupEditing.SliceFrom | frontend/src/App.js:18 | `slice(k)` keeps the elements from `k` on, or none |
| GroupEditing.Splice | frontend/src/App.js:15-19 | slicing around index `k` replaces entry `k`, or appends past the end |
| GroupEditing.Cut | frontend/src/App.js:24-27 | slicing around index `k` drops entry `k`, or changes nothing past the end |
| GroupEditing.UpdateGroup | frontend/src/App.js:13-21 | group `id` becomes the new group and the others are kept; an index past the end appends |
| GroupEditing.RemoveGroup | frontend/src/App.js:23-29 | group `id` is dropped and the rest keep their order |
| GroupEditing.UpdateMember | frontend/src/App.js:32-41 | a missing group throws; otherwise the member is replaced (or appended) and returned, and other groups are unchanged |
| GroupEditing.AddMember | frontend/src/App.js:43-47 | a missing group throws; otherwise the member goes last in its group |
| GroupEditing.RemoveMember | frontend/src/App.js:49-55 | a missing group throws; otherwise the member is dropped from its group |
| GroupEditing.AddThenRemove | frontend/src/App.js:43-55 | adding a member and removing the last one restores the groups |
| GroupEditing.UpdateMemberUndo | frontend/src/App.js:32-41 | writing back the old member undoes an update |
| GroupEditing.AppendThenRemoveGroup | frontend/src/App.js:13-29 | removing a group appended past the end restores the groups |
| GroupEditing.Initial | frontend/src/App.js:9-11 | the page starts with no groups, no pairings, and the editor shown |
| GroupEditing.Rematch | frontend/src/App.js:69-71 | a successful match replaces the pairings; a thrown error is swallowed and leaves them |
| GroupEditing.FindMatches | frontend/src/App.js:68-73 | finding matches always shows the pairings: the matcher's result on success, the old ones on failure |
| GroupEditing.RandomizeMatches | frontend/src/App.js:81-85 | randomising keeps the view and the groups, and stores the matcher's result on success or keeps the old pairings |
| GroupEditing.FindAndRandomizeAgree | frontend/src/App.js:68-85 | both buttons store the same pairings and only finding switches the view; repeating either with the same draws changes nothing more |
| GroupEditing.EmptyGroupsShowNothing | frontend/src/App.js:68-73 | with no groups the error is swallowed and an empty pairings view shows |
| PairViewer.CapFirstLetter | frontend/src/PairViewer.js:4-12 | the first letter is upper-cased and the rest kept; the empty string is returned unchanged |
| PairViewer.CapIdempotent | frontend/src/PairViewer.js:4-12 | capitalising twice is capitalising once |
| PairViewer.PairSentence | frontend/src/PairViewer.js:19-21 | the sentence is the giver capitalised, ` gifts to `, and the receiver capitalised |
| PairViewer.Sentences | frontend/src/PairViewer.js:16-24 | one sentence per pairing, in order |
| PairViewer.SentenceNames | frontend/src/PairViewer.js:19-21 | given the name lengths, a sentence determines both names up to their first letters |
| WordStore.Fresh | backend/words/models.py:17-28 | a new row takes the field defaults: difficulty 0 and strength 0 |
| WordStore.Empty | backend/words/models.py:45-55 | the empty database satisfies the constraints |
| WordStore.CheckLanguage | backend/words/database_functions.py:8-13 | `assert_valid_language` accepts exactly the ten language codes and raises `ValueError` otherwise |
| WordStore.Clash | backend/words/models.py:47 | no clash exactly when no other row shares `(word, language)` or `(difficulty, language)` |
| WordStore.IndexOf | backend/words/database_functions.py:25-29 | a row is found by its id exactly when the id is stored |
| WordStore.Save | backend/words/models.py:17-47 | `save()` fails exactly on a uniqueness clash, with that constraint's error. Otherwise the row is stored with `last_seen` set to now, and other rows and links are kept |
| WordStore.ReplaceKeeps | backend/words/models.py:17-47 | updating a row in place keeps every other row and every id |
| WordStore.SaveValid | backend/words/models.py:45-55 | a successful save keeps the constraints |
| WordStore.ReplaceMembers | backend/words/models.py:47 | replacing a row keeps the rows free of repeats |
| WordStore.FindKey | backend/words/database_functions.py:25-29 | the row keyed by `(word, language)`, or none |
| WordStore.Upsert | backend/words/database_functions.py:16-31 | the language is checked first. The row keyed by `(word, language)` gets the strength and the current time, and is created exactly when absent, with difficulty 0 and the next id; other rows and links are kept |
| WordStore.UpsertValid | backend/words/database_functions.py:16-31 | upserting keeps the constraints. With a valid language it fails exactly when the word is new and its language already has a row of difficulty 0, and it fails with the `(difficulty, language)` constraint |
| WordStore.LastSeenIgnored | backend/words/database_functions.py:22-23 | the `last_seen` argument changes nothing, since `auto_now` overwrites it |
| WordStore.OneNewWordPerLanguage | backend/words/models.py:24-47 | once a language holds a row of difficulty 0, it accepts no new word |
| WordStore.Matches | backend/words/database_functions.py:35-38 | the filter keeps exactly the rows with that word, and that language when one is given |
| WordStore.KeepHead | backend/words/database_functions.py:35-38 | a filter that keeps the head and some of a repeat-free tail has no repeats |
| WordStore.TailDistinct | backend/words/database_functions.py:35-38 | the tail of a repeat-free sequence has no repeats |
| WordStore.GetWord | backend/words/database_functions.py:34-47 | a truthy invalid language raises first. The lookup succeeds exactly when one row matches, and returns that row. Several matches raise `LookupError` with the "multiple words" message. No match raises `ValueError`: the short message only for a missing language, the "in language" message for any other, even an empty one |
| WordStore.GetWordOutcomes | backend/words/database_functions.py:34-47 | over rows without repeats: "does not exist" exactly when no row has the word (in the language, when truthy); "multiple words" exactly when two different rows do; otherwise the only such row is returned |
| WordStore.NoAmbiguityWithLanguage | backend/words/database_functions.py:36-41 | with a language given, at most one row matches, so `LookupError` cannot arise |
| WordStore.AmbiguousWithoutLanguage | backend/words/database_functions.py:40-41 | the same word in two languages makes a lookup without a language raise `LookupError` |
| WordStore.Without | backend/words/database_functions.py:53 | the rows without the deleted one |
| WordStore.Delete | backend/words/models.py:50-52 | deleting a row removes it and, by `CASCADE`, every link touching it, and keeps the constraints |
| WordStore.RemoveWord | backend/words/database_functions.py:50-53 | exactly the row `get_word` finds is deleted, and its errors pass through |
| WordStore.CreateSynonym | backend/words/database_functions.py:56-68 | a word with itself raises before any save. Otherwise the word object comes back stamped by its save, and it is the stored row when it was stored before; both ways are linked exactly when both rows are stored, and the constraints hold |
| WordStore.SaveBoth | backend/words/database_functions.py:61-66 | the two saves, with errors ignored, keep every id and the constraints; a stored word is saved, stamped, and stays stored |
| WordStore.DecStrength | backend/words/database_functions.py:75-78 | only a positive strength is lowered and saved |
| WordStore.IncStrength | backend/words/database_functions.py:81-84 | only a strength below 5 is raised and saved |
| WordStore.StrengthStaysInRange | backend/words/database_functions.py:75-84 | steps of one keep a strength within 0..5, and move it when there is room |
| WordStore.NoClashWithSelf | backend/words/database_functions.py:75-84 | a stored row with only its strength changed clashes with no other row |
| WordStore.WordsOf | backend/words/database_functions.py:164 | the words of the rows, in order |
| WordStore.LinkAll | backend/words/database_functions.py:160-166 | the loop keeps the constraints. The linked synonyms are some of the strings, in order, each in the synonym language and linked to the word. The word object is stamped once any synonym is linked, differs from the one passed in at most in `last_seen`, and stays the stored row unless a string is the word itself |
| WordStore.LinkOne | backend/words/database_functions.py:161-166 | one turn links the synonym, or skips it on any error. Once linked, the word object is stamped; it stays the stored row unless the string is the word itself |
| WordStore.UpsertSpares | backend/words/database_functions.py:162 | upserting a different key leaves a stored row in place and gives a different row |
| WordStore.UpsertKeepsValid | backend/words/database_functions.py:162 | upserting a synonym keeps the constraints |
| WordStore.ConsSub | backend/words/database_functions.py:164 | keeping a string keeps the linked words a subsequence of the strings |
| WordStore.UpdateWordSynonyms | backend/words/database_functions.py:143-169 | the word must exist, and `get_word`'s errors pass through. The returned word is the row found, stamped when any synonym was linked, and it is the stored row unless a synonym string is the word itself. The synonyms linked are returned, and links are only added |
| WordStore.Synonyms | backend/words/models.py:40-43 | `get_synonyms` lists exactly the linked rows, of one language when a truthy one is given, each once, ordered by word |
| WordStore.WordLeTotal | backend/words/models.py:46 | any two words are ordered one way or the other |
| WordStore.WordLeTrans | backend/words/models.py:46 | the word order is transitive |
| WordStore.Insert | backend/words/models.py:46 | inserting into a sorted list keeps it sorted, adds exactly the one row, and keeps rows distinct |
| WordStore.SortByWord | backend/words/models.py:46 | the rows reordered by word: sorted, the same rows, still distinct |
| WordStore.LinkedRows | backend/words/models.py:40-43 | the rows linked to a word, of one language when a truthy one is given |
| WordStore.SynonymsSymmetric | backend/words/models.py:30-35 | the relation is symmetric |
| WordStore.LinkedBothWays | backend/words/database_functions.py:56-68 | linking two stored words makes each a synonym of the other |

## Left out

- HTTP, `axios`, `async`/`await` and timers: server replies are parameters. So are the async `ping` and `wait` commands of the default context, and the `setInterval` cursor blink.
- React rendering, scrolling, focus and the scroll-to-bottom effects: these only present state.
- PyTerminal.ResultText: a returned value is classed by built-in type only. A type with its own `__add__`, `__radd__` or `__eq__`, or a subclass of `str`, may answer `result == ""` or `result + "\n"` differently. Other extension types, such as `array.array` and `memoryview`, have their own `+` wording. The model gives all of these the `unsupported operand` wording.
- CommandHistory.MostRecentFirst: rows with equal timestamps are listed in the reverse of the order they were added. The database leaves their order unspecified under `order_by("-timestamp")`, so only the descending timestamps are promised by the source.
- WordStore.Synonyms: rows with the same word keep the order they are stored in, where the database leaves it unspecified. Words are compared by character code, which stands in for the database's collation.
- `set_probability`, `sigmoid`, `get_weighted_word` and `get_words_list`: these compute floating-point weights, draw random samples and paginate. The float `p` column is not part of `WordStore.Word`.
- The bodies of the user commands (backend/words/words.py, frontend/src/words/wordsTerm.js, the `clear`, `msg`, `exit` and `reload` functions): a command's function is known only by its identity and run by a `Runner` parameter. `exit` and `reload` call `window.close`/`location.reload`, which the model omits.
- upload_csv is not part of this model. The `terminal` endpoint (backend/api/views.py:88) calls `default_terminal.create_relation(...)` before it handles the line. Neither the Python `Terminal` nor `InputHandler` defines `create_relation`, so that call raises `AttributeError` and the endpoint never reaches `handle_input`. The endpoint and the Django request wrapping are not modelled: the model covers `handle_input` itself.
- `Text.Upper` and `Text.Lower` case-map ASCII letters only; `toUpperCase` and `lower()` cover all of Unicode.
- `PyCommand.Coerce` keeps a float as the literal it was read from, and `float(True)` as the literal `1`. The binary value of a float is not modelled.
- PyCommand.CoerceAccepts: digits are ASCII `0`-`9` only. Python's `int()` and `float()` also accept every other Unicode decimal digit, so `int("١٢")` and `int("１２")` are 12 in Python and refused by the model. `int()` also refuses more than 4300 digits by default (`sys.int_max_str_digits`), a limit that depends on the interpreter's version and settings; the model has no such limit.
- PyCommand.Coerce: the conversion itself reads ASCII digits only and has no 4300-digit limit, for the reasons given on the line above.
- PyCommand.Infer: an annotation, or a `datatype` given to `Parameter`, can be any callable, such as `bool` or a user class. `PyType` covers only `str`, `int` and `float`, the converters the commands of this repository use.
- `GroupEditing` indices are natural numbers: the page only passes indices of its own lists, so negative `slice` bounds are not modelled.
- `WordStore.Save` uses one `now` value per call for `auto_now`.
- The JavaScript `in` operator also finds inherited properties such as `toString` on a plain object, and objects list integer-like keys first. Both tables use plain insertion order and own keys only.
- The fallback `else ""` branches of `PyTerminal.AfterEquals`, `JsContext.SecondPiece` and `Args.KeyPart` are only reached for option words that hold `=`, so the empty result is never used.
- `Santa.SantaSelector`: the check for non-array input (`Array.isArray`) is represented only as the empty-list case; every group here is already a list of strings.
