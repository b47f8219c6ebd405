/**
 * The response re-framing done by `handle_query`: the model's output chunks are
 * accumulated and cut into fixed-size frames whose newlines (`'\n'`) are escaped;
 * the text left over is flushed as a last frame and the stream ends with a
 * sentinel frame.
 *
 * This module holds the specification of that stream as functions on the
 * concatenated response text, and the lemmas that say what the frames are.
 */
module Framing {

  /** Number of raw characters in every frame cut inside the streaming loop. */
  const FrameSize: nat := 50

  /** The frame that tells the client the response is complete. */
  const Sentinel: string := "DONE"

  /** `text.replace('\n', '\\n')`: every newline becomes a backslash followed by `n`. */
  function Escape(s: string): string
  {
    if s == [] then []
    else (if s[0] == '\n' then "\\n" else [s[0]]) + Escape(s[1..])
  }

  /** Escaping removes every newline and never shortens the text. */
  lemma {:induction false} EscapeNoNewline(s: string)
    ensures forall i :: 0 <= i < |Escape(s)| ==> Escape(s)[i] != '\n'
    ensures |Escape(s)| >= |s|
    decreases |s|
  {
    if s != [] {
      EscapeNoNewline(s[1..]);
    }
  }

  /** `''.join(parts)`. */
  function Join(parts: seq<string>): string
  {
    if parts == [] then "" else Join(parts[..|parts| - 1]) + parts[|parts| - 1]
  }

  /** The chunks whose content is truthy, i.e. not the empty string, in arrival order. */
  function NonEmpty(chunks: seq<string>): seq<string>
  {
    if chunks == [] then []
    else
      var last := chunks[|chunks| - 1];
      var prefix := NonEmpty(chunks[..|chunks| - 1]);
      if last == "" then prefix else prefix + [last]
  }

  lemma {:induction false} JoinAppend(xs: seq<string>, ys: seq<string>)
    ensures Join(xs + ys) == Join(xs) + Join(ys)
    decreases |ys|
  {
    if ys == [] {
      assert xs + ys == xs;
    } else {
      var init := ys[..|ys| - 1];
      assert (xs + ys)[..|xs + ys| - 1] == xs + init;
      JoinAppend(xs, init);
    }
  }

  lemma EscapeAllAppend(xs: seq<string>, ys: seq<string>)
    ensures EscapeAll(xs + ys) == EscapeAll(xs) + EscapeAll(ys)
  {
  }

  /**
   * Dropping the chunks without content changes nothing of the concatenated
   * text, and leaves no chunk at all exactly when the text is empty.
   */
  lemma {:induction false} NonEmptyJoin(chunks: seq<string>)
    ensures forall i :: 0 <= i < |NonEmpty(chunks)| ==> NonEmpty(chunks)[i] != ""
    ensures Join(NonEmpty(chunks)) == Join(chunks)
    ensures NonEmpty(chunks) == [] <==> Join(chunks) == ""
    decreases |chunks|
  {
    if chunks != [] {
      NonEmptyJoin(chunks[..|chunks| - 1]);
    }
  }

  /** Taking one more chunk extends the concatenated text by it. */
  lemma JoinStep(chunks: seq<string>, i: nat)
    requires i < |chunks|
    ensures Join(chunks[..i + 1]) == Join(chunks[..i]) + chunks[i]
  {
    assert chunks[..i + 1][..i] == chunks[..i];
  }

  /** The full frames the streaming loop cuts from `s`, front to back. */
  function Cuts(s: string): (frames: seq<string>)
    ensures forall i :: 0 <= i < |frames| ==> |frames[i]| == FrameSize
    ensures |frames| == |s| / FrameSize
    decreases |s|
  {
    if |s| < FrameSize then [] else [s[..FrameSize]] + Cuts(s[FrameSize..])
  }

  /** What is left in the buffer once no full frame can be cut from `s`. */
  function Rest(s: string): (r: string)
    ensures |r| < FrameSize
    decreases |s|
  {
    if |s| < FrameSize then s else Rest(s[FrameSize..])
  }

  /** Escapes every frame of `frames`. */
  function EscapeAll(frames: seq<string>): seq<string>
  {
    seq(|frames|, i requires 0 <= i < |frames| => Escape(frames[i]))
  }

  /**
   * Every frame `handle_query` yields when the stream ends normally and the
   * non-empty chunks concatenate to `text`: the escaped full frames, then the
   * escaped remainder (only if some content arrived; it may be empty), then the
   * sentinel.
   */
  function ResponseFrames(text: string): seq<string>
  {
    if text == "" then [Sentinel]
    else EscapeAll(Cuts(text)) + [Escape(Rest(text))] + [Sentinel]
  }

  lemma {:induction false} EscapeAppend(a: string, b: string)
    ensures Escape(a + b) == Escape(a) + Escape(b)
    decreases |a|
  {
    if a == [] {
      assert a + b == b;
    } else {
      assert (a + b)[0] == a[0];
      assert (a + b)[1..] == a[1..] + b;
      EscapeAppend(a[1..], b);
    }
  }

  lemma {:induction false} JoinCons(x: string, xs: seq<string>)
    ensures Join([x] + xs) == x + Join(xs)
    decreases |xs|
  {
    if xs == [] {
      assert [x] + xs == [x];
      assert [x][..0] == [];
    } else {
      var init := xs[..|xs| - 1];
      assert ([x] + xs)[..|xs|] == [x] + init;
      JoinCons(x, init);
    }
  }

  /** Frame `i` of the loop holds exactly the characters `50 * i` up to `50 * i + 50` of the text. */
  lemma {:induction false} CutsAt(s: string, i: nat)
    requires i < |Cuts(s)|
    ensures Cuts(s)[i] == s[FrameSize * i .. FrameSize * i + FrameSize]
    decreases |s|
  {
    if i > 0 {
      CutsAt(s[FrameSize..], i - 1);
    }
  }

  /** The remainder is the tail of the text after the last full frame. */
  lemma {:induction false} RestIsTail(s: string)
    ensures Rest(s) == s[FrameSize * (|s| / FrameSize)..]
    decreases |s|
  {
    if |s| >= FrameSize {
      var t := s[FrameSize..];
      RestIsTail(t);
      assert |t| / FrameSize == |s| / FrameSize - 1;
      assert t[FrameSize * (|t| / FrameSize)..] == s[FrameSize * (|s| / FrameSize)..];
    }
  }

  /** Full frames followed by the remainder give back the text. */
  lemma {:induction false} CutsThenRest(s: string)
    ensures Join(Cuts(s)) + Rest(s) == s
    decreases |s|
  {
    if |s| >= FrameSize {
      CutsThenRest(s[FrameSize..]);
      JoinCons(s[..FrameSize], Cuts(s[FrameSize..]));
      assert s[..FrameSize] + s[FrameSize..] == s;
    }
  }

  /**
   * Any split of `s` into 50-character pieces followed by fewer than 50
   * characters is the split that `Cuts` and `Rest` make: how the chunks
   * happened to arrive does not change the frames.
   */
  lemma {:induction false} SplitIsUnique(raw: seq<string>, rest: string, s: string)
    requires forall k :: 0 <= k < |raw| ==> |raw[k]| == FrameSize
    requires |rest| < FrameSize
    requires Join(raw) + rest == s
    ensures raw == Cuts(s) && rest == Rest(s)
    decreases |raw|
  {
    if raw == [] {
      assert s == rest;
    } else {
      assert raw == [raw[0]] + raw[1..];
      JoinCons(raw[0], raw[1..]);
      assert s == raw[0] + (Join(raw[1..]) + rest);
      assert s[..FrameSize] == raw[0];
      assert s[FrameSize..] == Join(raw[1..]) + rest;
      SplitIsUnique(raw[1..], rest, s[FrameSize..]);
    }
  }

  /**
   * Appending `content` to a text whose full frames were already sent leaves a
   * buffer `Rest(text) + content`; cutting that buffer into full frames `cut`
   * and a remainder `rest` sends exactly the frames the longer text adds.
   */
  lemma CutsExtend(text: string, content: string, cut: seq<string>, rest: string)
    requires forall k :: 0 <= k < |cut| ==> |cut[k]| == FrameSize
    requires |rest| < FrameSize
    requires Rest(text) + content == Join(cut) + rest
    ensures Cuts(text + content) == Cuts(text) + cut
    ensures Rest(text + content) == rest
  {
    var sent, all := Cuts(text), Cuts(text) + cut;
    assert forall k :: 0 <= k < |all| ==> |all[k]| == FrameSize by {
      forall k | 0 <= k < |all| ensures |all[k]| == FrameSize {
        if k < |sent| { assert all[k] == sent[k]; } else { assert all[k] == cut[k - |sent|]; }
      }
    }
    calc {
      text + content;
      { CutsThenRest(text); }
      (Join(sent) + Rest(text)) + content;
      Join(sent) + (Rest(text) + content);
      Join(sent) + (Join(cut) + rest);
      (Join(sent) + Join(cut)) + rest;
      { JoinAppend(sent, cut); }
      Join(all) + rest;
    }
    SplitIsUnique(all, rest, text + content);
  }

  lemma EscapeAllCons(x: string, xs: seq<string>)
    ensures EscapeAll([x] + xs) == [Escape(x)] + EscapeAll(xs)
  {
  }

  lemma {:induction false} EscapedFramesCoverText(s: string)
    ensures Join(EscapeAll(Cuts(s))) + Escape(Rest(s)) == Escape(s)
    decreases |s|
  {
    if |s| >= FrameSize {
      var head, tail := s[..FrameSize], s[FrameSize..];
      calc {
        Join(EscapeAll(Cuts(s))) + Escape(Rest(s));
        { EscapeAllCons(head, Cuts(tail));
          JoinCons(Escape(head), EscapeAll(Cuts(tail))); }
        (Escape(head) + Join(EscapeAll(Cuts(tail)))) + Escape(Rest(tail));
        Escape(head) + (Join(EscapeAll(Cuts(tail))) + Escape(Rest(tail)));
        { EscapedFramesCoverText(tail); }
        Escape(head) + Escape(tail);
        { EscapeAppend(head, tail); }
        Escape(head + tail);
        { assert head + tail == s; }
        Escape(s);
      }
    }
  }

  /**
   * The sentinel comes last, and is the only frame when no content arrived;
   * otherwise there is one frame per full 50 characters, then the flush.
   */
  lemma ResponseFramesShape(text: string)
    ensures var frames := ResponseFrames(text);
      && |frames| >= 1 && frames[|frames| - 1] == Sentinel
      && (text == "" <==> |frames| == 1)
      && (text != "" ==> |frames| == |text| / FrameSize + 2)
  {
  }

  /**
   * Every frame cut inside the loop is the escape of exactly 50 raw characters,
   * taken from the text in order, and the flush is the escape of the tail after
   * them (possibly empty).
   */
  lemma ResponseFramesContent(text: string)
    requires text != ""
    ensures var frames := ResponseFrames(text);
      && (forall i :: 0 <= i < |text| / FrameSize ==>
            frames[i] == Escape(text[FrameSize * i .. FrameSize * i + FrameSize]))
      && frames[|frames| - 2] == Escape(text[FrameSize * (|text| / FrameSize)..])
  {
    var frames := ResponseFrames(text);
    forall i | 0 <= i < |text| / FrameSize
      ensures frames[i] == Escape(text[FrameSize * i .. FrameSize * i + FrameSize])
    {
      CutsAt(text, i);
    }
    RestIsTail(text);
  }

  /** All frames but the sentinel, concatenated, are the escaped response text. */
  lemma ResponseFramesCoverText(text: string)
    ensures var frames := ResponseFrames(text);
      Join(frames[..|frames| - 1]) == Escape(text)
  {
    var frames := ResponseFrames(text);
    if text != "" {
      assert frames[..|frames| - 1] == EscapeAll(Cuts(text)) + [Escape(Rest(text))];
      EscapedFramesCoverText(text);
    }
  }

  /** No frame holds a raw `'\n'` (a carriage return is not escaped and may remain). */
  lemma ResponseFramesOneLine(text: string, i: nat)
    requires i < |ResponseFrames(text)|
    ensures forall j :: 0 <= j < |ResponseFrames(text)[i]| ==> ResponseFrames(text)[i][j] != '\n'
  {
    var frames := ResponseFrames(text);
    if text != "" && i < |frames| - 1 {
      if i < |Cuts(text)| {
        EscapeNoNewline(Cuts(text)[i]);
      } else {
        EscapeNoNewline(Rest(text));
      }
    }
  }

  /**
   * The sentinel is in-band: a frame before the last equals it only when it is
   * the flush frame and the response's remainder escapes to `DONE`.
   */
  lemma SentinelOnlyAtFlush(text: string, i: nat)
    requires i < |ResponseFrames(text)| - 1
    requires ResponseFrames(text)[i] == Sentinel
    ensures text != "" && i == |ResponseFrames(text)| - 2 && Escape(Rest(text)) == Sentinel
  {
    var frames := ResponseFrames(text);
    if i < |Cuts(text)| {
      EscapeNoNewline(Cuts(text)[i]);
    }
  }

  /**
   * The inner loop of `handle_query`: while the buffer holds at least a frame,
   * cut its first 50 characters off, escape them and send them. Returns the
   * frames sent, the buffer left and (as ghost) the raw frames before escaping.
   */
  method CutFullFrames(buffer: string) returns (sent: seq<string>, rest: string, ghost raw: seq<string>)
    ensures Join(raw) + rest == buffer
    ensures forall k :: 0 <= k < |raw| ==> |raw[k]| == FrameSize
    ensures |rest| < FrameSize
    ensures sent == EscapeAll(raw)
    ensures raw == [] <==> |buffer| < FrameSize
  {
    rest := buffer;
    sent, raw := [], [];
    while |rest| >= FrameSize
      invariant Join(raw) + rest == buffer
      invariant forall k :: 0 <= k < |raw| ==> |raw[k]| == FrameSize
      invariant sent == EscapeAll(raw)
      invariant raw == [] ==> rest == buffer
      decreases |rest|
    {
      var sendChunk := rest[..FrameSize];
      assert sendChunk + rest[FrameSize..] == rest;
      rest := rest[FrameSize..];
      raw := raw + [sendChunk];
      sent := sent + [Escape(sendChunk)];
    }
  }
}
