/** DeskPilot.run and the prompt loop of main: a question is routed, then
    answered by the selected tools in sequence or, when no tool is selected,
    by the plain language model; the prompt loop answers every non-blank
    input line, stripped, and skips blank ones. */
module Pilot {
  import opened Text
  import opened Router
  import opened Sequencer

  datatype Option<T> = None | Some(value: T)

  const NoResponse: string := "[❌ No response]"

  /** The agents DeskPilot talks to: the router model's reply to the routing
      prompt for a question, the tool agents, and the plain model's last
      message for a question. */
  datatype Agents = Agents(router: string -> string, tools: Responder, llm: string -> Reply)

  /** The direct answer: the content of a text message, the marker for any
      other message. */
  function DirectAnswer(reply: Reply): string {
    match reply
    case Text(c) => c
    case Other => NoResponse
  }

  /** The tools DeskPilot.infer_tools selects for a question. */
  function Route(question: string, agents: Agents): seq<string> {
    ParseRoute(agents.router(question))
  }

  /** The answer DeskPilot.run gives to a question. */
  function Respond(question: string, agents: Agents): string {
    var tools := Route(question, agents);
    if tools != [] then
      KnownToolsAnswer(tools, question, agents.tools);
      Sequence(tools, question, agents.tools, "").text
    else DirectAnswer(agents.llm(question))
  }

  /** DeskPilot.run: the tool sequence when the router selects tools, the
      plain model otherwise. The ghost log records the tool agent runs. */
  method Run(question: string, agents: Agents) returns (answer: string, ghost log: seq<Exchange>)
    ensures answer == Respond(question, agents)
    ensures var tools := Route(question, agents);
            log == if tools == [] then [] else Exchanges(tools, question, agents.tools, "")
  {
    var tools := ParseRoute(agents.router(question));
    if tools != [] {
      var outcome;
      outcome, log := RunToolSequence(tools, question, agents.tools);
      KnownToolsAnswer(tools, question, agents.tools);
      answer := outcome.text;
    } else {
      var reply := agents.llm(question);
      answer := if reply.Text? then reply.content else NoResponse;
      log := [];
    }
  }

  /** A `none` in the router's reply, in any case and wherever it stands,
      sends the question to the plain model. */
  lemma NoneFallsBack(question: string, agents: Agents, a: string, w: string, b: string)
    requires agents.router(question) == a + w + b && Lower(w) == "none"
    ensures Route(question, agents) == []
    ensures Respond(question, agents) == DirectAnswer(agents.llm(question))
  {
    NoneVetoes(a, w, b);
  }

  /** A blank router reply sends the question to the plain model. */
  lemma BlankRouteFallsBack(question: string, agents: Agents)
    requires AllSpace(agents.router(question))
    ensures Respond(question, agents) == DirectAnswer(agents.llm(question))
  {
    BlankRoutesNowhere(agents.router(question));
  }

  /** A router reply listing catalog keys between commas runs exactly those
      tools, in that order, the first one on the question itself. */
  lemma KeyListRuns(question: string, agents: Agents, keys: seq<string>)
    requires |keys| >= 1 && forall i :: 0 <= i < |keys| ==> keys[i] in Catalog
    requires agents.router(question) == Join(keys, ',')
    ensures var log := Exchanges(keys, question, agents.tools, "");
            Route(question, agents) == keys &&
            Sequence(keys, question, agents.tools, "") == Answer(Respond(question, agents)) &&
            |log| == |keys| &&
            (forall i :: 0 <= i < |log| ==> log[i].tool == keys[i]) &&
            log[0].input == question
  {
    KeyListRoundTrip(keys);
    KnownToolsAnswer(keys, question, agents.tools);
    ExchangesTools(keys, question, agents.tools, "");
    FirstInput(keys, question, agents.tools);
  }

  /** Router replies that differ only in letter case give the same answer. */
  lemma AnswerIgnoresCase(question: string, agents: Agents, other: Agents)
    requires Lower(agents.router(question)) == Lower(other.router(question))
    requires agents.tools == other.tools && agents.llm == other.llm
    ensures Respond(question, agents) == Respond(question, other)
  {
    RouteIgnoresCase(agents.router(question), other.router(question));
  }

  /** Every answer is one of the two markers, the plain model's text or a
      non-empty text one of the tools replied. */
  lemma AnswerSource(question: string, agents: Agents)
    ensures var answer, tools := Respond(question, agents), Route(question, agents);
            var log := Exchanges(tools, question, agents.tools, "");
            answer == NoResponse || answer == NoResponseGenerated ||
            (tools == [] && agents.llm(question) == Text(answer)) ||
            (tools != [] && answer != [] && exists i :: 0 <= i < |log| && log[i].reply == Text(answer))
  {
    var tools := Route(question, agents);
    if tools != [] {
      KnownToolsAnswer(tools, question, agents.tools);
    }
  }

  /** The answer is empty only when no tool was selected and the plain model
      replied with an empty text. */
  lemma EmptyAnswer(question: string, agents: Agents)
    ensures Respond(question, agents) == [] <==>
              Route(question, agents) == [] && agents.llm(question) == Text([])
  {
    var tools := Route(question, agents);
    if tools != [] {
      KnownToolsAnswer(tools, question, agents.tools);
    }
  }

  // ------------------------------------------------------------ prompt loop

  /** One input line of the prompt loop: the question it asks, stripped, or
      nothing when the line is blank. */
  function ReadQuestion(line: string): Option<string> {
    var question := Strip(line);
    if question == [] then None else Some(question)
  }

  /** A line asks nothing exactly when it is blank; otherwise it asks its
      stripped text, which is non-empty and strips to itself. */
  lemma ReadQuestionSpec(line: string)
    ensures ReadQuestion(line) == None <==> AllSpace(line)
    ensures ReadQuestion(line).Some? ==>
              ReadQuestion(line).value == Strip(line) && ReadQuestion(line).value != [] &&
              Strip(ReadQuestion(line).value) == ReadQuestion(line).value
  {
    StripBlank(line);
    StripIdempotent(line);
  }

  /** The questions the prompt loop answers, in input order. */
  function Questions(lines: seq<string>): seq<string>
    decreases |lines|
  {
    if lines == [] then []
    else
      var asked := match ReadQuestion(lines[|lines| - 1]) case None => [] case Some(q) => [q];
      Questions(lines[..|lines| - 1]) + asked
  }

  /** The questions of consecutive input are the questions of each part. */
  lemma {:induction false} QuestionsAppend(a: seq<string>, b: seq<string>)
    ensures Questions(a + b) == Questions(a) + Questions(b)
    decreases |b|
  {
    if b != [] {
      var n := |b|;
      assert (a + b)[..|a + b| - 1] == a + b[..n - 1];
      assert (a + b)[|a + b| - 1] == b[n - 1];
      QuestionsAppend(a, b[..n - 1]);
    } else {
      assert a + b == a;
    }
  }

  /** A blank line asks nothing; any other line asks its stripped text. */
  lemma QuestionOfLine(line: string)
    ensures Questions([line]) == if AllSpace(line) then [] else [Strip(line)]
  {
    assert [line][..0] == [];
    StripBlank(line);
  }

  /** The prompt loop of main over a finite input: blank lines are skipped,
      every other line is answered, stripped, in order. */
  method Session(lines: seq<string>, agents: Agents) returns (responses: seq<string>)
    ensures |responses| == |Questions(lines)|
    ensures forall k :: 0 <= k < |responses| ==> responses[k] == Respond(Questions(lines)[k], agents)
  {
    responses := [];
    for n := 0 to |lines|
      invariant |responses| == |Questions(lines[..n])|
      invariant forall k :: 0 <= k < |responses| ==> responses[k] == Respond(Questions(lines[..n])[k], agents)
    {
      assert lines[..n + 1][..n] == lines[..n] && lines[..n + 1][n] == lines[n];
      var question := Strip(lines[n]);
      if question == [] {
        continue;
      }
      var answer;
      ghost var log;
      answer, log := Run(question, agents);
      responses := responses + [answer];
    }
    assert lines[..|lines|] == lines;
  }
}
