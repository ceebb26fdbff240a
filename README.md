# DeskPilot: routing and tool sequencing, modelled in Dafny

DeskPilot is a command-line assistant. It answers a question in three steps:

1. It asks a language model, the router, which tool categories the question needs: time, email, search, wikipedia, plan or file.
2. It parses the router's reply into a list of catalog keys.
3. It runs one agent per selected tool, in order, threading a single output string through them. When no tool is selected, it asks the plain model directly.

This project models that orchestration logic of `app/demo1.py` and proves properties of it. The agents are external services, so they are parameters of the model.

Modules, one file each:

- `text.dfy`, module `Text`: the Python string operations the code relies on, over ASCII text.
  - `str.strip()` is `Strip`, with `TrimStart` and `TrimEnd`. Whitespace is `str.isspace()` restricted to ASCII: the space, codes 9 to 13 and codes 28 to 31.
  - `str.lower()` is `Lower`.
  - The substring test `w in s` is `Contains`.
  - `str.split(sep)` is `Split`, with its inverse `Join`.
- `router.dfy`, module `Router`: the tool catalog and `infer_tools`' reply parser, `ParseRoute`.
  - The reply is stripped and lower-cased.
  - A `none` anywhere in it selects nothing.
  - Otherwise each comma-separated token that, once stripped, is a catalog key is selected. Reply order and duplicates are kept.
- `sequencer.dfy`, module `Sequencer`: `run_tool_sequence`, as the method `RunToolSequence` with a loop. It is proved against the specification functions `Sequence` (the outcome) and `Exchanges` (the agent runs, as a ghost log).
  - A tool missing from the catalog ends the sequence in the failed lookup `TOOL_CATALOG[tool]`, Python's `KeyError`. This is the `UnknownTool` outcome.
- `pilot.dfy`, module `Pilot`:
  - `run` is the method `Run`, specified by `Respond`: the tool sequence when tools are selected, and the plain model's text or the `[❌ No response]` marker otherwise.
  - The prompt loop of `main` is the method `Session`, over a finite sequence of input lines. Blank lines are skipped, and every other line is stripped and answered.

The agents are function values:

- `Agents.router` is the router's reply text for a question.
- `Agents.tools`, of type `Responder`, is the last message a tool's agent produces for an input: a text message or some other message.
- `Agents.llm` is the plain model's last message for a question.

One might expect tool i+1 to receive only tool i's output. In the code, each tool receives `task if not output else output`, and only a text reply replaces `output`. So:

- after a non-text reply, the next tool gets the same input again, which may be an earlier tool's output or the question;
- after an empty text reply, the next tool gets the question again.

`Sequencer.NextInput` states this.

## Model

| member | source | states |
|---|---|---|
| Text.TrimStartSpec | app/demo1.py:51 | TrimStart removes exactly the leading whitespace: it keeps a suffix, everything before it is whitespace, and it does not start with whitespace |
| Text.TrimEndSpec | app/demo1.py:51 | TrimEnd removes exactly the trailing whitespace: it keeps a prefix, everything after it is whitespace, and it does not end with whitespace |
| Text.StripSpec | app/demo1.py:51 | `strip()` yields the window of s after its leading whitespace, with only whitespace after it, neither starting nor ending with whitespace |
| Text.StripUnique | app/demo1.py:51 | any window of s with only whitespace outside it and no whitespace at its ends is Strip(s), so the characterization is exact |
| Text.StripBlank | app/demo1.py:90-91 | a string strips to the empty string exactly when it is all whitespace |
| Text.StripSolid | app/demo1.py:52 | text without whitespace strips to itself |
| Text.StripPadded | app/demo1.py:52 | whitespace added on either side does not change the stripped text |
| Text.StripIdempotent | app/demo1.py:51-52 | stripping twice is stripping once |
| Text.LowerConcat | app/demo1.py:51 | `lower()` works character by character: it distributes over concatenation |
| Text.LowerSlice | app/demo1.py:51 | lower-casing a slice is slicing the lower-cased text |
| Text.LowerKeepsSpace | app/demo1.py:51 | lower-casing neither creates nor removes whitespace |
| Text.LowerSpaces | app/demo1.py:51 | whitespace in a range of s is still whitespace in that range of Lower(s) |
| Text.LowerFixed | app/demo1.py:51 | text without upper-case letters is its own lower case |
| Text.LowerIdempotent | app/demo1.py:51 | lower-casing twice is lower-casing once |
| Text.ContainsIff | app/demo1.py:52 | the substring test `w in s` holds exactly when w occurs in s at some index |
| Text.ContainsWithin | app/demo1.py:52 | a word found in y is found in any text that has y inside it |
| Text.ContainsChars | app/demo1.py:52 | text lacking one of w's characters does not contain w |
| Text.OccursAcrossSep | app/demo1.py:52 | an occurrence of a separator-free word around a separator lies wholly on one side of it |
| Text.ContainsAcrossSep | app/demo1.py:52 | a separator-free word found in x+sep+y is found in x or in y |
| Text.OccursInPadded | app/demo1.py:51-52 | an occurrence of a whitespace-free word in padded text lies inside the unpadded part |
| Text.ContainsPadded | app/demo1.py:51-52 | whitespace padding does not change whether a non-empty whitespace-free word occurs |
| Text.Split | app/demo1.py:52 | `split(sep)` returns at least one piece and no piece holds the separator |
| Text.SplitJoin | app/demo1.py:52 | joining the pieces of a split with the separator gives back the text |
| Text.JoinSplit | app/demo1.py:52 | splitting a join of separator-free pieces gives back the pieces |
| Text.JoinAppend | app/demo1.py:52 | the join of two piece lists is the two joins around one separator |
| Text.SplitConcat | app/demo1.py:52 | the pieces of a+sep+b are the pieces of a followed by the pieces of b |
| Text.SplitLeading | app/demo1.py:52 | separator-free text in front of y joins y's first piece |
| Text.SplitTrailing | app/demo1.py:52 | separator-free text after x joins x's last piece |
| Text.SplitNoSep | app/demo1.py:52 | separator-free text splits into itself alone |
| Text.SplitPadded | app/demo1.py:52 | separator-free padding on both sides only lengthens the first and the last piece |
| Router.Select | app/demo1.py:52 | the comprehension selects at most one name per token |
| Router.ParseRoute | app/demo1.py:51-52 | every tool the router selects is a key of TOOL_CATALOG |
| Router.SelectAppend | app/demo1.py:52 | selection works token by token: the selection of a+b is that of a followed by that of b |
| Router.SelectKeysOnly | app/demo1.py:22-29 | only catalog keys are selected |
| Router.SelectMembers | app/demo1.py:52 | a name is selected exactly when it is a catalog key that some token strips to |
| Router.SelectPointwise | app/demo1.py:52 | token lists that strip alike, token by token, select alike |
| Router.SelectPadded | app/demo1.py:51-52 | whitespace around the split text does not change the selection |
| Router.LowerAroundStrip | app/demo1.py:51 | the lower-cased reply is the lower-cased stripped reply with whitespace on both sides |
| Router.RouteOnRawReply | app/demo1.py:51-52 | the route depends only on the lower-cased raw reply: no tool when it contains `none`, else the selection of its comma-separated tokens |
| Router.RouteIgnoresCase | app/demo1.py:51 | replies that lower-case alike route alike |
| Router.NoneVetoes | app/demo1.py:52 | `none` in any letter case, anywhere in the reply, selects no tool, whatever else is named |
| Router.RouteMembers | app/demo1.py:51-52 | a key is routed exactly when the reply has no `none` and one of its comma-separated tokens strips to that key |
| Router.RouteDistributes | app/demo1.py:52 | without `none`, the route of `a,b` is the route of a followed by the route of b, keeping order and duplicates |
| Router.BlankSelectsNothing | app/demo1.py:52 | blank text holds no `none` and selects no tool |
| Router.BlankRoutesNowhere | app/demo1.py:51-52 | a blank reply routes to no tool |
| Router.PlainTokenRoute | app/demo1.py:51-52 | a lower-case, stripped, comma-free token without `none` routes to itself if it is a catalog key, else to nothing |
| Router.TokenRoute | app/demo1.py:51-52 | a bare lower-case token without whitespace, comma or `none` routes to itself if it is a catalog key, else to nothing |
| Router.KeyIsWord | app/demo1.py:22-29 | every catalog key is a lower-case word that does not contain `none` |
| Router.WordList | app/demo1.py:51-52 | comma-joined lower-case words without `none` are their own lower case and contain no `none` |
| Router.KeepKey | app/demo1.py:52 | a catalog key as a token is kept as it is |
| Router.SelectKept | app/demo1.py:52 | tokens that are each kept as they are come out unchanged |
| Router.KeyListRoundTrip | app/demo1.py:22-52 | a reply listing catalog keys between commas routes to exactly that list: same keys, same order, duplicates kept |
| Sequencer.Finish | app/demo1.py:68 | the result is never empty: it is the output itself when that is not empty, and `[❌ No response generated.]` when it is empty |
| Sequencer.Exchanges | app/demo1.py:56-67 | the loop makes at most one agent run per tool |
| Sequencer.RunToolSequence | app/demo1.py:54-68 | the loop ends with the outcome `Sequence` and performs the agent runs `Exchanges` |
| Sequencer.LastTextCons | app/demo1.py:67 | absorbing one reply and then the rest leaves the same last text as absorbing them all |
| Sequencer.LastTextWins | app/demo1.py:67 | a text reply followed only by non-text replies decides the output |
| Sequencer.LastTextNone | app/demo1.py:67 | with no text reply the output stays what it was |
| Sequencer.LastTextSource | app/demo1.py:67 | the output is the initial one or the content of one of the replies |
| Sequencer.ExchangesTools | app/demo1.py:56-58 | the i-th agent run is that of the i-th tool, and only catalog tools run |
| Sequencer.ExchangesStop | app/demo1.py:56-58 | the runs stop at the first tool missing from the catalog, and the sequence ends in its failed lookup |
| Sequencer.SequenceAnswers | app/demo1.py:54-68 | when every tool ran, the answer is the last text replied, or the marker when that is empty |
| Sequencer.InputsFollowLastText | app/demo1.py:66-67 | each agent gets the question while the running output is empty, else the last text replied so far, and its reply is the agent's answer to that input |
| Sequencer.NextInput | app/demo1.py:66-67 | a non-empty text reply is handed to the next tool, an empty one sends it back to the question, and any other reply hands it the same input again |
| Sequencer.FirstInput | app/demo1.py:55-66 | the first tool is given the question |
| Sequencer.AnswerIsLastText | app/demo1.py:66-68 | with every tool in the catalog, the answer is the last non-empty text a tool replied, when no later tool replied with text |
| Sequencer.SilentToolsGiveMarker | app/demo1.py:66-68 | with every tool in the catalog and no tool answering the question with text, the answer is `[❌ No response generated.]` |
| Sequencer.SilentPrefix | app/demo1.py:66-67 | while no tool replies with text, every tool is given the question |
| Sequencer.UnknownToolStops | app/demo1.py:56-58 | a tool missing from the catalog ends the sequence in its failed lookup, after exactly the tools before it ran |
| Sequencer.KnownToolsAnswer | app/demo1.py:54-68 | with every tool in the catalog, every tool runs and the answer is non-empty: the marker or a text some tool replied |
| Pilot.Run | app/demo1.py:70-78 | run answers with Respond: the tool sequence when tools are routed, the plain model otherwise; only routed tools run |
| Pilot.NoneFallsBack | app/demo1.py:70-78 | a `none` in the router's reply, in any case, sends the question to the plain model |
| Pilot.BlankRouteFallsBack | app/demo1.py:70-78 | a blank router reply sends the question to the plain model |
| Pilot.KeyListRuns | app/demo1.py:70-73 | a router reply listing catalog keys runs exactly those tools, in order, the first one on the question |
| Pilot.AnswerIgnoresCase | app/demo1.py:70-78 | router replies that differ only in letter case give the same answer |
| Pilot.AnswerSource | app/demo1.py:70-78 | every answer is a marker, the plain model's text, or a non-empty text some tool replied |
| Pilot.EmptyAnswer | app/demo1.py:70-78 | the answer is empty exactly when no tool is routed and the plain model replied with empty text |
| Pilot.ReadQuestionSpec | app/demo1.py:90-92 | a line asks nothing exactly when it is blank; otherwise it asks its stripped text, which is non-empty and strips to itself |
| Pilot.QuestionsAppend | app/demo1.py:89-93 | the questions of consecutive input are the questions of each part, in order |
| Pilot.QuestionOfLine | app/demo1.py:90-92 | a blank line asks nothing; any other line asks its stripped text |
| Pilot.Session | app/demo1.py:89-94 | the loop answers the questions of the input lines, one response per question, in order |

## Left out

- The language-model client, the routing prompt (`app/demo1.py:37-48`) and the agent framework are external services. They are the `Agents` parameters. The router is a function of the question alone; the prompt that wraps the question is not modelled.
- The agents are deterministic functions: the same tool given the same input replies the same. A real model may answer differently on each call, and that is not captured.
- The tool servers and their parameters (`app/mcp_servers.py`) are not part of this model. Opening and closing a workbench session per tool (`app/demo1.py:59`) and `reflect_on_tool_use` are left out. The model keeps only the reply a successful tool agent run produces.
- Exceptions are not modelled. Any of these can raise: an agent run (`app/demo1.py:50`, `66`, `77`), opening a workbench (`app/demo1.py:59`), or `input()` at end of input (an `EOFError`). Such an exception propagates out of `run` and out of the prompt loop, because `main` catches only `KeyboardInterrupt` (`app/demo1.py:96`), and it ends the session. The model treats these failures as not happening: its agents are total functions, and `Session` answers every question. The one failure the model keeps is the `KeyError` of a tool missing from the catalog.
- `async`/`await`, every `print`, `close` (`app/demo1.py:80-81`) and the program entry point are left out: they are I/O or lifecycle. In `Session`, a `KeyboardInterrupt` is the end of the input sequence, and the responses are the printed answers.
- Strip, Lower and IsSpace cover ASCII only. Python's Unicode whitespace and case mapping for non-ASCII characters are not modelled.
- The router's reply is taken to be text. If its last message were not a text message, `.content.strip()` would fail or behave differently, and that is not modelled. An agent run that returns no messages at all is not modelled either.
- Router.Select: its own contract states only the length bound. Which names it selects is stated by SelectMembers, SelectKeysOnly and SelectAppend.
