/**
 * The conversation memory and the streaming part of `handle_query`.
 *
 * The memory is the module-level `ConversationBufferMemory`: an ordered log of
 * (input, output) turns, read back as alternating human and AI messages. The
 * model's streamed reply is given as the sequence of chunk texts it produced
 * (an empty text is a chunk without content).
 */
module Conversation {
  import opened Framing
  import opened History

  /** One exchange stored in the memory. */
  datatype Turn = Turn(input: string, output: string)

  /** The output stored when the model streamed no content at all. */
  const Apology: string := "I apologize, but I encountered an error processing your request. Please try again."

  /** The memory's history as messages: each turn's input, then its output. */
  function Messages(turns: seq<Turn>): (h: seq<Message>)
    ensures |h| == 2 * |turns|
    ensures forall t :: 0 <= t < |turns| ==>
      h[2 * t] == Message(Human, turns[t].input) && h[2 * t + 1] == Message(Ai, turns[t].output)
  {
    if turns == [] then []
    else Messages(turns[..|turns| - 1])
         + [Message(Human, turns[|turns| - 1].input), Message(Ai, turns[|turns| - 1].output)]
  }

  /** The history the chain hands to the model with every request. */
  function ModelHistory(turns: seq<Turn>): seq<Message>
  {
    FirstOccurrences(Messages(turns))
  }

  /**
   * What the model is shown of the memory: only messages of the memory, in
   * order, each text once, and every text of the memory is shown.
   */
  lemma ModelHistorySpec(turns: seq<Turn>)
    ensures IsSubsequence(ModelHistory(turns), Messages(turns))
    ensures DistinctContents(ModelHistory(turns))
    ensures ContentSet(ModelHistory(turns)) == ContentSet(Messages(turns))
  {
    FirstOccurrencesIsSubsequence(Messages(turns));
    FirstOccurrencesDistinct(Messages(turns));
    FirstOccurrencesKeepsContents(Messages(turns));
  }

  /** The output committed to memory for a response whose chunks concatenate to `text`. */
  function CommittedOutput(text: string): (out: string)
    ensures out != ""
    ensures text != "" ==> out == text
    ensures text == "" ==> out == Apology
  {
    if text == "" then Apology else text
  }

  class Memory {
    var turns: seq<Turn>

    constructor ()
      ensures turns == []
    {
      turns := [];
    }

    /** `memory.save_context`: appends one turn. */
    method SaveContext(input: string, output: string)
      modifies this
      ensures turns == old(turns) + [Turn(input, output)]
    {
      turns := turns + [Turn(input, output)];
    }

    /** `memory.clear()`: forgets every turn. */
    method Clear()
      modifies this
      ensures turns == []
    {
      turns := [];
    }
  }

  /**
   * The body of the streaming loop for a chunk with content: append it to the
   * buffer's pieces, join them, and send every full frame the buffer now holds
   * (the inner `while` loop); when a frame was sent, the pieces are reset to the
   * one string left over. Returns the new pieces, the frames sent and (as ghost)
   * the raw frames before escaping.
   */
  method TakeChunk(bufferChunks: seq<string>, content: string)
    returns (newBufferChunks: seq<string>, sent: seq<string>, ghost cut: seq<string>)
    ensures Join(bufferChunks) + content == Join(cut) + Join(newBufferChunks)
    ensures forall k :: 0 <= k < |cut| ==> |cut[k]| == FrameSize
    ensures |Join(newBufferChunks)| < FrameSize && newBufferChunks != []
    ensures sent == EscapeAll(cut)
  {
    newBufferChunks := bufferChunks + [content];
    var buffer := Join(newBufferChunks);
    var rest;
    sent, rest, cut := CutFullFrames(buffer);
    if |buffer| >= FrameSize {
      newBufferChunks := [rest];
      assert Join(newBufferChunks) == Join([]) + rest;
    }
  }

  /**
   * The `for chunk in chain.stream(...)` loop of `handle_query` and the flush
   * after it: the frames yielded before the sentinel, and the concatenation of
   * the non-empty chunks (`full_response`, before the apology fallback).
   */
  method ReframeStream(chunks: seq<string>) returns (frames: seq<string>, fullResponse: string)
    ensures fullResponse == Join(NonEmpty(chunks)) == Join(chunks)
    ensures frames + [Sentinel] == ResponseFrames(fullResponse)
  {
    var bufferChunks: seq<string> := [];
    var fullResponseChunks: seq<string> := [];
    frames := [];
    for i := 0 to |chunks|
      invariant Join(fullResponseChunks) == Join(chunks[..i])
      invariant frames == EscapeAll(Cuts(Join(fullResponseChunks)))
      invariant Join(bufferChunks) == Rest(Join(fullResponseChunks))
      invariant bufferChunks == [] <==> Join(fullResponseChunks) == ""
    {
      JoinStep(chunks, i);
      var content := chunks[i];
      if content != "" {
        ghost var text := Join(fullResponseChunks);
        var sent; ghost var cut;
        bufferChunks, sent, cut := TakeChunk(bufferChunks, content);
        fullResponseChunks := fullResponseChunks + [content];
        CutsExtend(text, content, cut, Join(bufferChunks));
        EscapeAllAppend(Cuts(text), cut);
        frames := frames + sent;
      }
    }
    assert chunks[..|chunks|] == chunks;
    NonEmptyJoin(chunks);
    fullResponse := Join(fullResponseChunks);
    if bufferChunks != [] {
      var finalBuffer := Escape(Join(bufferChunks));
      frames := frames + [finalBuffer];
    }
  }

  /**
   * `handle_query` when the stream ends normally: returns the history the chain
   * sends with the request and every frame yielded, and commits the whole reply
   * to memory as one turn.
   */
  method HandleQuery(memory: Memory, userInput: string, chunks: seq<string>)
    returns (sentHistory: seq<Message>, frames: seq<string>)
    modifies memory
    ensures sentHistory == ModelHistory(old(memory.turns))
    ensures frames == ResponseFrames(Join(NonEmpty(chunks)))
    ensures memory.turns == old(memory.turns) + [Turn(userInput, CommittedOutput(Join(chunks)))]
  {
    sentHistory := FormatHistory(Messages(memory.turns));
    var streamed, fullResponse := ReframeStream(chunks);
    if fullResponse == "" {
      fullResponse := Apology;
    }
    memory.SaveContext(userInput, fullResponse);
    frames := streamed + [Sentinel];
  }
}
