/** How the stream reads a graph frame and an agent's message, with the node names, the markers, the bounds and
    the label written out. */
module StreamReadings {
  import opened Text
  import opened TextLaws
  import opened StreamBuffer
  import opened Streaming
  import opened StreamEchoes

  // ---------------------------------------------------------------------------
  // Frames.

  /** The first character that is not whitespace is an opening brace. */
  ghost predicate LooksLikeJson(text: string) {
    exists i :: 0 <= i < |text| && text[i] == '{' && AllSpace(text[..i])
  }

  lemma JsonExactly(text: string)
    ensures "{" <= Strip(text) <==> LooksLikeJson(text)
  {
    var i := LStripCut(text);
    RStripPiece(text[i..]);
    var brace := '{';
    SpacesExactly(brace);
    if i < |text| {
      SpacesExactly(text[i]);
    }
    hide WHITESPACE, IsSpace, AllSpace, LStrip;
    assert "{" <= Strip(text) <==> i < |text| && text[i] == '{' by {
      FirstKept(text[i..]);
    }
    if k :| 0 <= k < |text| && text[k] == brace && AllSpace(text[..k]) {
      if i < |text| {
        FirstNonSpace(text, i, k);
      } else {
        SpaceBefore(text, i, k);
      }
    }
  }

  /** Stripping the end keeps a first character that is not whitespace. */
  lemma {:induction false} FirstKept(s: string)
    requires s == "" || !IsSpace(s[0])
    ensures "{" <= RStrip(s) <==> s != "" && s[0] == '{'
    decreases |s|
  {
    hide IsSpace;
    if s != "" && IsSpace(s[|s| - 1]) {
      FirstKept(s[..|s| - 1]);
    }
  }

  lemma LastOf(s: string, suffix: string)
    requires suffix != "" && EndsWith(s, suffix)
    ensures s[|s| - 1] == suffix[|suffix| - 1]
  {
  }

  lemma AgentNode(agent: string)
    ensures var n := agent + "_agent";
            && EndsWith(n, "_agent") && n[..|n| - 6] == agent
            && !EndsWith(n, "_mini") && !EndsWith(n, "_aggregator")
  {
    var n := agent + "_agent";
    assert n[|n| - 6..] == "_agent" && n[|n| - 1] == 't';
    hide EndsWith;
    if EndsWith(n, "_mini") {
      LastOf(n, "_mini");
    }
    if EndsWith(n, "_aggregator") {
      LastOf(n, "_aggregator");
    }
    assert EndsWith(n, "_agent") by {
      EndIs(n, "_agent");
    }
  }

  lemma EndIs(s: string, suffix: string)
    requires |suffix| <= |s| && s[|s| - |suffix|..] == suffix
    ensures EndsWith(s, suffix)
  {
  }

  /** An agent's frames come from the node of its name; nothing else counts as one. */
  lemma AgentExactly(f: Frame, agent: string, content: Content, toolCalls: bool)
    ensures Classify(f) == FromAgent(agent, content, toolCalls) <==> f == Message(agent + "_agent", content, toolCalls)
  {
    AgentNode(agent);
    if f.Message? && EndsWith(f.node, "_agent") {
      assert f.node == f.node[..|f.node| - 6] + "_agent";
    }
    hide EndsWith, Strip;
  }

  lemma OtherNodes(f: Frame)
    requires f.Message? && f.node != "supervisor"
    ensures Classify(f).Ignored? || Classify(f).FromAgent?
  {
  }

  /** The frames that are no message: a mini-agent event is relayed, a non-empty `final_response` is kept. */
  lemma EventExactly(f: Frame, name: string, data: string)
    ensures Classify(f) == Relay(name, data) <==> f == MiniEvent(name, data)
    ensures Classify(f) == FinalResponse(data) <==> f == Values(data) && data != ""
  {
    hide EndsWith, Strip;
  }

  /** What the supervisor says: a message that begins with its name and an arrow is an inline handoff; any
      other text is a chunk, unless it looks like JSON, begins with the name in a bracket or carries tool
      calls. */
  lemma SupervisorExactly(f: Frame, text: string)
    ensures Classify(f) == InlineHandoff(text) <==>
            f.Message? && f.node == "supervisor" && f.content == Words(text) && "[Supervisor \U{2192}" <= text
    ensures Classify(f) == Chunk(text) <==>
            && f == Message("supervisor", Words(text), false) && text != ""
            && !LooksLikeJson(text) && !("[Supervisor" <= text)
  {
    SupervisorNode();
    JsonExactly(text);
    if INLINE <= text {
      InlineIsNotJson(text);
    }
    hide Strip, EndsWith, LooksLikeJson;
  }

  // ---------------------------------------------------------------------------
  // Replies.

  /** `str.title` on ASCII: a letter is upper case exactly when no letter stands before it. */
  lemma {:induction false} TitleExactly(s: string, afterLetter: bool)
    ensures |Title(s, afterLetter)| == |s|
    ensures forall i :: 0 <= i < |s| ==>
              var after := if i == 0 then afterLetter else s[i - 1] in UPPER_LETTERS || s[i - 1] in LOWER_LETTERS;
              Title(s, afterLetter)[i] == if after then ToLower(s[i]) else ToUpper(s[i])
    decreases |s|
  {
    hide ToLower, ToUpper, UPPER_LETTERS, LOWER_LETTERS;
    if s != [] {
      TitleExactly(s[1..], IsLetter(s[0]));
      UpperLetterExactly(s[0]);
      LowerLetterExactly(s[0]);
    }
  }

  /** The message without the line that names its agent. */
  function Unlabelled(agent: string, text: string): string {
    var line := "[" + Title(agent, false) + " Agent]\n";
    if line <= text then text[|line|..] else text
  }

  /** An agent's message is a reply exactly when it carries no tool calls and, without its label and outer
      whitespace, is text of more than fifty characters with a space in it; and that text is the reply. */
  lemma ReplyExactly(agent: string, content: Content, toolCalls: bool, reply: string)
    ensures Reply(agent, content, toolCalls) == Some(reply) <==>
            && !toolCalls && content.Words? && Core(Unlabelled(agent, content.text), reply)
            && |reply| > 50 && ' ' in reply
  {
    if content.Words? {
      StripExactly(Unlabelled(agent, content.text), reply);
      hide Title, Strip, Core;
      if content.text == "" {
        assert Unlabelled(agent, "") == "";
        EmptyCore(reply);
      }
    }
  }

  lemma EmptyCore(r: string)
    ensures Core("", r) ==> r == ""
  {
  }
}
