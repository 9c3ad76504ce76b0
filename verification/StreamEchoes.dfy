/** What the duplicate tests absorb, and what they lose. */
module StreamEchoes {
  import opened Text
  import opened StreamBuffer
  import opened Streaming
  import opened StreamRefinement

  /** A supervisor message that repeats a non-empty beginning of the text waiting in the buffer, such as
      the assembled message that follows its own chunks. */
  predicate Echo(st: State, f: Frame) {
    && f.Message? && f.node == "supervisor" && f.content.Words? && f.content.text != ""
    && st.buffer.chunks != [] && f.content.text <= Join(st.buffer.chunks)
  }

  lemma InlineIsNotJson(text: string)
    requires INLINE <= text
    ensures !("{" <= Strip(text))
  {
    assert text[0] == INLINE[0] == '[';
    assert LStrip(text) == text;
    RStripPiece(text);
  }

  /** An echo changes nothing at all, unless it reads as an inline handoff, which empties the buffer. */
  lemma EchoAbsorbed(st: State, f: Frame)
    requires Echo(st, f)
    ensures After(st, f) == st <==> !(INLINE <= f.content.text)
  {
    var text := f.content.text;
    SupervisorNode();
    assert Classify(f) == SupervisorText(text, f.toolCalls);
    if INLINE <= text {
      InlineIsNotJson(text);
      assert Classify(f) == InlineHandoff(text);
      assert After(st, f).buffer.chunks == [];
    } else {
      hide Strip, Join;
      assert WouldDuplicate(st.buffer, text);
    }
  }

  lemma SupervisorNode()
    ensures var n := "supervisor"; !EndsWith(n, "_mini") && !EndsWith(n, "_aggregator") && !EndsWith(n, "_agent")
  {
    var n := "supervisor";
    assert n[5..][0] == 'v' && n[4..][0] == 'r' && |n| < |"_aggregator"|;
  }

  /** The frames that `keep` selects. */
  function Selected(frames: seq<Frame>, keep: seq<bool>): seq<Frame>
    requires |keep| == |frames|
  {
    if frames == [] then []
    else (if keep[0] then [frames[0]] else []) + Selected(frames[1..], keep[1..])
  }

  /** Every frame that `keep` leaves out is, when it arrives, an echo and no inline handoff. */
  predicate LeavesOutEchoes(st: State, frames: seq<Frame>, keep: seq<bool>)
    requires |keep| == |frames|
    decreases |frames|
  {
    frames == [] ||
    ((keep[0] || (Echo(st, frames[0]) && !(INLINE <= frames[0].content.text)))
     && LeavesOutEchoes(After(st, frames[0]), frames[1..], keep[1..]))
  }

  /** Echo absorption: adding any number of echoes anywhere leaves the state, and so everything the run
      shows and stores, as it is without them. */
  lemma {:induction false} EchoesChangeNothing(st: State, frames: seq<Frame>, keep: seq<bool>)
    requires |keep| == |frames| && LeavesOutEchoes(st, frames, keep)
    ensures Fold(st, Selected(frames, keep)) == Fold(st, frames)
    decreases |frames|
  {
    if frames != [] {
      EchoesChangeNothing(After(st, frames[0]), frames[1..], keep[1..]);
      var rest := Selected(frames[1..], keep[1..]);
      hide After;
      if keep[0] {
        assert ([frames[0]] + rest)[1..] == rest;
      } else {
        EchoAbsorbed(st, frames[0]);
        assert Selected(frames, keep) == rest;
      }
    }
  }

  lemma EchoesInvisible(frames: seq<Frame>, keep: seq<bool>, fault: Fault, message: string, working: nat)
    requires |keep| == |frames| && LeavesOutEchoes(START, frames, keep)
    ensures Stream(Selected(frames, keep), NEVER, fault, message, working) ==
            Stream(frames, NEVER, fault, message, working)
  {
    EchoesChangeNothing(START, frames, keep);
    DriveIsFold(START, frames);
    DriveIsFold(START, Selected(frames, keep));
  }
}
