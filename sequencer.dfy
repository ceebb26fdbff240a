/** The tool sequencer (DeskPilot.run_tool_sequence): the selected tools run
    one after another, each tool agent is given the question while nothing
    has been produced yet and the latest text otherwise, a text reply
    replaces the running output, any other reply leaves it as it was, and an
    empty final output is reported as a fixed marker. */
module Sequencer {
  import opened Router

  /** The last message of an agent run: a text message with its content, or
      any other kind of message (a tool call, a tool result, ...). */
  datatype Reply = Text(content: string) | Other

  /** The agents behind the tools: what the agent of a tool replies when it
      is given an input. */
  type Responder = (string, string) -> Reply

  /** One agent run of the sequence: the tool, the input it was given and
      the reply it produced. */
  datatype Exchange = Exchange(tool: string, input: string, reply: Reply)

  /** How a sequence ends: with an answer, or with the lookup of a tool that
      is not in the catalog failing (Python's KeyError). */
  datatype Outcome = Answer(text: string) | UnknownTool(name: string)

  const NoResponseGenerated: string := "[❌ No response generated.]"

  /** `task if not output else output` */
  function InputFor(task: string, output: string): string {
    if output == [] then task else output
  }

  /** The running output after a reply: a text reply replaces it. */
  function Absorb(output: string, reply: Reply): string {
    match reply
    case Text(c) => c
    case Other => output
  }

  /** `output or "[❌ No response generated.]"` */
  function Finish(output: string): (answer: string)
    ensures answer != []
    ensures output != [] ==> answer == output
    ensures output == [] ==> answer == NoResponseGenerated
  {
    if output == [] then NoResponseGenerated else output
  }

  /** The agent runs the loop performs from the running output `output`
      on: one per tool, up to the first tool missing from the catalog. */
  function Exchanges(tools: seq<string>, task: string, respond: Responder, output: string): (log: seq<Exchange>)
    ensures |log| <= |tools|
    decreases |tools|
  {
    if tools == [] || tools[0] !in Catalog then []
    else
      var input := InputFor(task, output);
      var reply := respond(tools[0], input);
      [Exchange(tools[0], input, reply)] + Exchanges(tools[1..], task, respond, Absorb(output, reply))
  }

  /** How the loop ends from the running output `output` on. */
  function Sequence(tools: seq<string>, task: string, respond: Responder, output: string): Outcome
    decreases |tools|
  {
    if tools == [] then Answer(Finish(output))
    else if tools[0] !in Catalog then UnknownTool(tools[0])
    else Sequence(tools[1..], task, respond, Absorb(output, respond(tools[0], InputFor(task, output))))
  }

  function Replies(log: seq<Exchange>): (replies: seq<Reply>)
    ensures |replies| == |log|
    ensures forall i :: 0 <= i < |log| ==> replies[i] == log[i].reply
  {
    seq(|log|, i requires 0 <= i < |log| => log[i].reply)
  }

  /** The content of the last text reply, or `init` when there is none. */
  function LastText(replies: seq<Reply>, init: string): string
    decreases |replies|
  {
    if replies == [] then init
    else match replies[|replies| - 1]
      case Text(c) => c
      case Other => LastText(replies[..|replies| - 1], init)
  }

  /** run_tool_sequence: the tools run in order; the result is the last text
      produced, or the marker, or the failed lookup of an unknown tool. The
      ghost log records every agent run. */
  method RunToolSequence(tools: seq<string>, task: string, respond: Responder)
    returns (outcome: Outcome, ghost log: seq<Exchange>)
    ensures outcome == Sequence(tools, task, respond, "")
    ensures log == Exchanges(tools, task, respond, "")
  {
    var output := "";
    log := [];
    assert tools[0..] == tools;
    for i := 0 to |tools|
      invariant Sequence(tools[i..], task, respond, output) == Sequence(tools, task, respond, "")
      invariant log + Exchanges(tools[i..], task, respond, output) == Exchanges(tools, task, respond, "")
    {
      var tool := tools[i];
      if tool !in Catalog {
        Halt(tools, i, task, respond, output, log);
        return UnknownTool(tool), log;
      }
      var input := if output == [] then task else output;
      var reply := respond(tool, input);
      Advance(tools, i, task, respond, output, log);
      log := log + [Exchange(tool, input, reply)];
      output := if reply.Text? then reply.content else output;
    }
    assert tools[|tools|..] == [];
    outcome := Answer(if output == [] then NoResponseGenerated else output);
  }

  /** The loop invariant of RunToolSequence survives a tool in the catalog. */
  lemma Advance(tools: seq<string>, i: nat, task: string, respond: Responder, output: string, log: seq<Exchange>)
    requires i < |tools| && tools[i] in Catalog
    requires Sequence(tools[i..], task, respond, output) == Sequence(tools, task, respond, "")
    requires log + Exchanges(tools[i..], task, respond, output) == Exchanges(tools, task, respond, "")
    ensures var input := InputFor(task, output);
            var reply := respond(tools[i], input);
            var next := Absorb(output, reply);
            Sequence(tools[i + 1..], task, respond, next) == Sequence(tools, task, respond, "") &&
            (log + [Exchange(tools[i], input, reply)]) + Exchanges(tools[i + 1..], task, respond, next) ==
              Exchanges(tools, task, respond, "")
  {
    var input := InputFor(task, output);
    var reply := respond(tools[i], input);
    var rest := Exchanges(tools[i + 1..], task, respond, Absorb(output, reply));
    StepKnown(tools[i..], task, respond, output);
    assert tools[i..][1..] == tools[i + 1..];
    assert log + ([Exchange(tools[i], input, reply)] + rest) == (log + [Exchange(tools[i], input, reply)]) + rest;
  }

  /** At a tool missing from the catalog the loop invariant of
      RunToolSequence gives the outcome and the whole log. */
  lemma Halt(tools: seq<string>, i: nat, task: string, respond: Responder, output: string, log: seq<Exchange>)
    requires i < |tools| && tools[i] !in Catalog
    requires Sequence(tools[i..], task, respond, output) == Sequence(tools, task, respond, "")
    requires log + Exchanges(tools[i..], task, respond, output) == Exchanges(tools, task, respond, "")
    ensures Sequence(tools, task, respond, "") == UnknownTool(tools[i])
    ensures log == Exchanges(tools, task, respond, "")
  {
    StepUnknown(tools[i..], task, respond, output);
    assert log + [] == log;
  }

  /** One step of the loop for a tool in the catalog. */
  lemma StepKnown(tools: seq<string>, task: string, respond: Responder, output: string)
    requires tools != [] && tools[0] in Catalog
    ensures var input := InputFor(task, output);
            var reply := respond(tools[0], input);
            Sequence(tools, task, respond, output) == Sequence(tools[1..], task, respond, Absorb(output, reply)) &&
            Exchanges(tools, task, respond, output) ==
              [Exchange(tools[0], input, reply)] + Exchanges(tools[1..], task, respond, Absorb(output, reply))
  {
  }

  /** The loop stops at a tool missing from the catalog. */
  lemma StepUnknown(tools: seq<string>, task: string, respond: Responder, output: string)
    requires tools != [] && tools[0] !in Catalog
    ensures Sequence(tools, task, respond, output) == UnknownTool(tools[0])
    ensures Exchanges(tools, task, respond, output) == []
  {
  }

  // ------------------------------------------------------------ lemmas

  lemma LastTextSnoc(replies: seq<Reply>, r: Reply, init: string)
    ensures LastText(replies + [r], init) == Absorb(LastText(replies, init), r)
  {
    assert (replies + [r])[..|replies|] == replies;
  }

  /** Absorbing replies one after another leaves the last text. */
  lemma {:induction false} LastTextCons(r: Reply, replies: seq<Reply>, init: string)
    ensures LastText([r] + replies, init) == LastText(replies, Absorb(init, r))
    decreases |replies|
  {
    if replies == [] {
      assert [r] + replies == [] + [r];
      LastTextSnoc([], r, init);
    } else {
      var n := |replies|;
      var front := replies[..n - 1];
      assert [r] + replies == ([r] + front) + [replies[n - 1]];
      assert replies == front + [replies[n - 1]];
      LastTextSnoc([r] + front, replies[n - 1], init);
      LastTextSnoc(front, replies[n - 1], Absorb(init, r));
      LastTextCons(r, front, init);
    }
  }

  /** A text reply followed only by other replies decides the last text. */
  lemma {:induction false} LastTextWins(replies: seq<Reply>, i: nat, init: string)
    requires i < |replies| && replies[i].Text?
    requires forall j :: i < j < |replies| ==> replies[j] == Other
    ensures LastText(replies, init) == replies[i].content
    decreases |replies|
  {
    if i < |replies| - 1 {
      LastTextWins(replies[..|replies| - 1], i, init);
    }
  }

  /** Without any text reply the last text is the initial one. */
  lemma {:induction false} LastTextNone(replies: seq<Reply>, init: string)
    requires forall j :: 0 <= j < |replies| ==> replies[j] == Other
    ensures LastText(replies, init) == init
    decreases |replies|
  {
    if replies != [] {
      LastTextNone(replies[..|replies| - 1], init);
    }
  }

  /** The i-th agent run is that of the i-th tool, and every tool that runs
      is in the catalog. */
  lemma {:induction false} ExchangesTools(tools: seq<string>, task: string, respond: Responder, output: string)
    ensures var log := Exchanges(tools, task, respond, output);
            forall i :: 0 <= i < |log| ==> log[i].tool == tools[i] && tools[i] in Catalog
    decreases |tools|
  {
    if tools != [] && tools[0] in Catalog {
      var next := Absorb(output, respond(tools[0], InputFor(task, output)));
      StepKnown(tools, task, respond, output);
      ExchangesTools(tools[1..], task, respond, next);
      var log, rest := Exchanges(tools, task, respond, output), Exchanges(tools[1..], task, respond, next);
      assert forall i :: 1 <= i < |log| ==> log[i] == rest[i - 1] && tools[i] == tools[1..][i - 1];
    }
  }

  /** The sequence stops at the first tool missing from the catalog, when
      there is one, and ends in its failed lookup. */
  lemma {:induction false} ExchangesStop(tools: seq<string>, task: string, respond: Responder, output: string)
    ensures var log := Exchanges(tools, task, respond, output);
            |log| < |tools| ==> tools[|log|] !in Catalog && Sequence(tools, task, respond, output) == UnknownTool(tools[|log|])
    decreases |tools|
  {
    if tools != [] && tools[0] !in Catalog {
      StepUnknown(tools, task, respond, output);
    } else if tools != [] {
      var next := Absorb(output, respond(tools[0], InputFor(task, output)));
      StepKnown(tools, task, respond, output);
      ExchangesStop(tools[1..], task, respond, next);
      var rest := Exchanges(tools[1..], task, respond, next);
      assert |rest| < |tools| - 1 ==> tools[1..][|rest|] == tools[|rest| + 1];
    }
  }

  /** When no tool is missing from the catalog the sequence answers with the
      last text the tools replied, or with the marker when that is empty. */
  lemma {:induction false} SequenceAnswers(tools: seq<string>, task: string, respond: Responder, output: string)
    ensures var log := Exchanges(tools, task, respond, output);
            |log| == |tools| ==> Sequence(tools, task, respond, output) == Answer(Finish(LastText(Replies(log), output)))
    decreases |tools|
  {
    if tools == [] {
      assert Replies([]) == [];
    } else if tools[0] in Catalog {
      var reply := respond(tools[0], InputFor(task, output));
      var next := Absorb(output, reply);
      StepKnown(tools, task, respond, output);
      SequenceAnswers(tools[1..], task, respond, next);
      var log, rest := Exchanges(tools, task, respond, output), Exchanges(tools[1..], task, respond, next);
      assert Replies(log) == [reply] + Replies(rest);
      LastTextCons(reply, Replies(rest), output);
    }
  }

  /** Each tool agent is given the question while the running output is
      empty and the running output otherwise; the running output is the
      last text replied so far. */
  lemma {:induction false} InputsFollowLastText(tools: seq<string>, task: string, respond: Responder, output: string, i: nat)
    requires i < |Exchanges(tools, task, respond, output)|
    ensures var log := Exchanges(tools, task, respond, output);
            log[i].input == InputFor(task, LastText(Replies(log[..i]), output)) &&
            log[i].reply == respond(log[i].tool, log[i].input)
    decreases i
  {
    var reply := respond(tools[0], InputFor(task, output));
    var next := Absorb(output, reply);
    var log, rest := Exchanges(tools, task, respond, output), Exchanges(tools[1..], task, respond, next);
    assert tools[0] in Catalog;
    StepKnown(tools, task, respond, output);
    if i > 0 {
      InputsFollowLastText(tools[1..], task, respond, next, i - 1);
      assert log[i] == rest[i - 1];
      assert Replies(log[..i]) == [reply] + Replies(rest[..i - 1]) by {
        assert log[..i] == [log[0]] + rest[..i - 1];
      }
      LastTextCons(reply, Replies(rest[..i - 1]), output);
    } else {
      assert Replies(log[..0]) == [];
    }
  }

  /** How the input passes from one tool to the next: a non-empty text
      reply is handed on, an empty one sends the next tool back to the
      question, and any other reply hands on the same input again. */
  lemma NextInput(tools: seq<string>, task: string, respond: Responder, i: nat)
    requires var log := Exchanges(tools, task, respond, ""); i + 1 < |log|
    ensures var log := Exchanges(tools, task, respond, "");
            log[i + 1].input ==
              match log[i].reply
              case Text(c) => if c == [] then task else c
              case Other => log[i].input
  {
    var log := Exchanges(tools, task, respond, "");
    InputsFollowLastText(tools, task, respond, "", i);
    InputsFollowLastText(tools, task, respond, "", i + 1);
    assert Replies(log[..i + 1]) == Replies(log[..i]) + [log[i].reply] by {
      assert log[..i + 1] == log[..i] + [log[i]];
    }
    LastTextSnoc(Replies(log[..i]), log[i].reply, "");
  }

  /** The first tool is given the question itself. */
  lemma FirstInput(tools: seq<string>, task: string, respond: Responder)
    requires tools != [] && tools[0] in Catalog
    ensures var log := Exchanges(tools, task, respond, "");
            log != [] && log[0] == Exchange(tools[0], task, respond(tools[0], task))
  {
  }

  /** When every tool is in the catalog, the answer is the last non-empty
      text a tool replied with, provided no later tool replied with text. */
  lemma AnswerIsLastText(tools: seq<string>, task: string, respond: Responder, i: nat)
    requires forall k :: 0 <= k < |tools| ==> tools[k] in Catalog
    requires var log := Exchanges(tools, task, respond, "");
             i < |log| && log[i].reply.Text? && log[i].reply.content != [] &&
             forall j :: i < j < |log| ==> log[j].reply == Other
    ensures Sequence(tools, task, respond, "") == Answer(Exchanges(tools, task, respond, "")[i].reply.content)
  {
    var log := Exchanges(tools, task, respond, "");
    ExchangesStop(tools, task, respond, "");
    SequenceAnswers(tools, task, respond, "");
    LastTextWins(Replies(log), i, "");
  }

  /** When every tool is in the catalog and none replies with text, the
      answer is the marker. */
  lemma SilentToolsGiveMarker(tools: seq<string>, task: string, respond: Responder)
    requires forall k :: 0 <= k < |tools| ==> tools[k] in Catalog
    requires forall k :: 0 <= k < |tools| ==> !respond(tools[k], task).Text?
    ensures Sequence(tools, task, respond, "") == Answer(NoResponseGenerated)
  {
    var log := Exchanges(tools, task, respond, "");
    forall j | 0 <= j < |log| ensures log[j].reply == Other {
      SilentPrefix(tools, task, respond, j);
    }
    ExchangesStop(tools, task, respond, "");
    SequenceAnswers(tools, task, respond, "");
    LastTextNone(Replies(log), "");
  }

  /** Under the hypotheses of SilentToolsGiveMarker every tool up to j is
      given the question and replies with something other than text. */
  lemma {:induction false} SilentPrefix(tools: seq<string>, task: string, respond: Responder, j: nat)
    requires forall k :: 0 <= k < |tools| ==> !respond(tools[k], task).Text?
    requires j < |Exchanges(tools, task, respond, "")|
    ensures var log := Exchanges(tools, task, respond, "");
            log[j].input == task && log[j].reply == Other
    decreases j
  {
    var log := Exchanges(tools, task, respond, "");
    if j == 0 {
      assert log[0].input == task by {
        InputsFollowLastText(tools, task, respond, "", 0);
        assert Replies(log[..0]) == [];
      }
    } else {
      SilentPrefix(tools, task, respond, j - 1);
      assert log[j].input == task by {
        NextInput(tools, task, respond, j - 1);
      }
    }
    assert log[j].tool == tools[j] by {
      ExchangesTools(tools, task, respond, "");
    }
    assert log[j].reply == respond(log[j].tool, log[j].input) by {
      InputsFollowLastText(tools, task, respond, "", j);
    }
  }

  /** A tool missing from the catalog stops the sequence before any later
      tool runs. */
  lemma UnknownToolStops(tools: seq<string>, task: string, respond: Responder, j: nat)
    requires j < |tools| && tools[j] !in Catalog
    requires forall k :: 0 <= k < j ==> tools[k] in Catalog
    ensures Sequence(tools, task, respond, "") == UnknownTool(tools[j])
    ensures |Exchanges(tools, task, respond, "")| == j
  {
    ExchangesTools(tools, task, respond, "");
    ExchangesStop(tools, task, respond, "");
  }

  /** The last text is the initial one or the content of one of the
      replies. */
  lemma {:induction false} LastTextSource(replies: seq<Reply>, init: string)
    ensures var t := LastText(replies, init);
            t == init || exists i :: 0 <= i < |replies| && replies[i] == Text(t)
    decreases |replies|
  {
    if replies != [] {
      var n := |replies|;
      var front := replies[..n - 1];
      if replies[n - 1] == Other {
        LastTextSource(front, init);
        assert forall i :: 0 <= i < n - 1 ==> front[i] == replies[i];
      }
    }
  }

  /** When every tool is in the catalog the sequence answers, with the
      marker or with a non-empty text one of the tools replied. */
  lemma KnownToolsAnswer(tools: seq<string>, task: string, respond: Responder)
    requires forall k :: 0 <= k < |tools| ==> tools[k] in Catalog
    ensures var outcome, log := Sequence(tools, task, respond, ""), Exchanges(tools, task, respond, "");
            outcome.Answer? && |log| == |tools| && outcome.text != [] &&
            (outcome.text == NoResponseGenerated ||
             exists i :: 0 <= i < |log| && log[i].reply == Text(outcome.text))
  {
    var log := Exchanges(tools, task, respond, "");
    ExchangesStop(tools, task, respond, "");
    SequenceAnswers(tools, task, respond, "");
    LastTextSource(Replies(log), "");
  }
}
