/**
 * `format_history_for_gemini`: before the conversation memory is handed to the
 * model, every message whose text was already seen earlier in the history is
 * dropped, whatever its role, so only the first occurrence of each text survives.
 */
module History {

  /** Who wrote a message in the conversation memory. */
  datatype Role = Human | Ai

  datatype Message = Message(role: Role, content: string)

  /** The texts of the messages in `h`. */
  function ContentSet(h: seq<Message>): set<string>
  {
    set i | 0 <= i < |h| :: h[i].content
  }

  /** The messages that are the first in `h` to carry their text, in order. */
  function FirstOccurrences(h: seq<Message>): seq<Message>
  {
    if h == [] then []
    else
      var prefix := h[..|h| - 1];
      var last := h[|h| - 1];
      if last.content in ContentSet(prefix) then FirstOccurrences(prefix)
      else FirstOccurrences(prefix) + [last]
  }

  /** `a` is `b` with some elements left out and the rest kept in order. */
  ghost predicate IsSubsequence(a: seq<Message>, b: seq<Message>)
    decreases |b|
  {
    if a == [] then true
    else if b == [] then false
    else (a[|a| - 1] == b[|b| - 1] && IsSubsequence(a[..|a| - 1], b[..|b| - 1]))
         || IsSubsequence(a, b[..|b| - 1])
  }

  /** No two messages of `h` carry the same text. */
  ghost predicate DistinctContents(h: seq<Message>)
  {
    forall i, j :: 0 <= i < j < |h| ==> h[i].content != h[j].content
  }

  /** The position of the first message of `h` whose text is `c`. */
  function FirstIndexOf(h: seq<Message>, c: string): (k: nat)
    requires c in ContentSet(h)
    ensures k < |h| && h[k].content == c
    ensures forall j :: 0 <= j < k ==> h[j].content != c
    decreases |h|
  {
    var prefix := h[..|h| - 1];
    if c in ContentSet(prefix) then
      var k := FirstIndexOf(prefix, c);
      assert h[k] == prefix[k];
      k
    else
      assert forall j :: 0 <= j < |prefix| ==> prefix[j].content in ContentSet(prefix);
      |h| - 1
  }

  lemma ContentSetSnoc(h: seq<Message>, m: Message)
    ensures ContentSet(h + [m]) == ContentSet(h) + {m.content}
  {
    var s := h + [m];
    assert forall i :: 0 <= i < |h| ==> s[i] == h[i];
    assert s[|h|] == m;
  }

  lemma ContentSetPrefix(h: seq<Message>)
    requires h != []
    ensures ContentSet(h) == ContentSet(h[..|h| - 1]) + {h[|h| - 1].content}
  {
    assert h == h[..|h| - 1] + [h[|h| - 1]];
    ContentSetSnoc(h[..|h| - 1], h[|h| - 1]);
  }

  /** Filtering keeps every text of the history: nothing is lost but repeats. */
  lemma {:induction false} FirstOccurrencesKeepsContents(h: seq<Message>)
    ensures ContentSet(FirstOccurrences(h)) == ContentSet(h)
    decreases |h|
  {
    if h != [] {
      var prefix, last := h[..|h| - 1], h[|h| - 1];
      FirstOccurrencesKeepsContents(prefix);
      ContentSetPrefix(h);
      if last.content !in ContentSet(prefix) {
        ContentSetSnoc(FirstOccurrences(prefix), last);
      }
    }
  }

  /** The result is an order-preserving subsequence of the history. */
  lemma {:induction false} FirstOccurrencesIsSubsequence(h: seq<Message>)
    ensures IsSubsequence(FirstOccurrences(h), h)
    decreases |h|
  {
    if h != [] {
      var prefix, last := h[..|h| - 1], h[|h| - 1];
      FirstOccurrencesIsSubsequence(prefix);
      var r := FirstOccurrences(h);
      if last.content in ContentSet(prefix) {
        if r != [] {
          assert IsSubsequence(r, prefix);
        }
      } else {
        assert r[..|r| - 1] == FirstOccurrences(prefix);
      }
    }
  }

  /** No text appears twice in the result. */
  lemma {:induction false} FirstOccurrencesDistinct(h: seq<Message>)
    ensures DistinctContents(FirstOccurrences(h))
    decreases |h|
  {
    if h != [] {
      var prefix, last := h[..|h| - 1], h[|h| - 1];
      FirstOccurrencesDistinct(prefix);
      if last.content !in ContentSet(prefix) {
        var kept := FirstOccurrences(prefix);
        FirstOccurrencesKeepsContents(prefix);
        assert forall i :: 0 <= i < |kept| ==> kept[i].content in ContentSet(kept);
      }
    }
  }

  /** Every message kept is the first message of the history with its text. */
  lemma {:induction false} FirstOccurrencesAreFirst(h: seq<Message>)
    ensures forall k :: 0 <= k < |FirstOccurrences(h)| ==>
      FirstOccurrences(h)[k].content in ContentSet(h) &&
      FirstOccurrences(h)[k] == h[FirstIndexOf(h, FirstOccurrences(h)[k].content)]
    decreases |h|
  {
    if h != [] {
      var prefix, last := h[..|h| - 1], h[|h| - 1];
      var r, kept := FirstOccurrences(h), FirstOccurrences(prefix);
      FirstOccurrencesAreFirst(prefix);
      ContentSetPrefix(h);
      forall k | 0 <= k < |r|
        ensures r[k].content in ContentSet(h) && r[k] == h[FirstIndexOf(h, r[k].content)]
      {
        if k < |kept| {
          assert r[k] == kept[k];
          var c := kept[k].content;
          assert c in ContentSet(prefix);
          var j := FirstIndexOf(prefix, c);
          assert FirstIndexOf(h, c) == j;
          assert h[j] == prefix[j];
        } else {
          assert r[k] == last;
        }
      }
    }
  }

  /** A history without repeated texts passes through unchanged. */
  lemma {:induction false} FirstOccurrencesOfDistinct(h: seq<Message>)
    requires DistinctContents(h)
    ensures FirstOccurrences(h) == h
    decreases |h|
  {
    if h != [] {
      var prefix, last := h[..|h| - 1], h[|h| - 1];
      assert DistinctContents(prefix);
      FirstOccurrencesOfDistinct(prefix);
      assert last.content !in ContentSet(prefix);
    }
  }

  /** Formatting an already formatted history changes nothing. */
  lemma FirstOccurrencesIdempotent(h: seq<Message>)
    ensures FirstOccurrences(FirstOccurrences(h)) == FirstOccurrences(h)
  {
    FirstOccurrencesDistinct(h);
    FirstOccurrencesOfDistinct(FirstOccurrences(h));
  }

  /**
   * The loop of `format_history_for_gemini`: a set of texts seen so far and the
   * list of messages kept.
   */
  method FormatHistory(history: seq<Message>) returns (formatted: seq<Message>)
    ensures formatted == FirstOccurrences(history)
  {
    var seen: set<string> := {};
    formatted := [];
    for i := 0 to |history|
      invariant seen == ContentSet(history[..i])
      invariant formatted == FirstOccurrences(history[..i])
    {
      var msg := history[i];
      var content := msg.content;
      assert history[..i + 1][..i] == history[..i];
      ContentSetPrefix(history[..i + 1]);
      if content !in seen {
        formatted := formatted + [msg];
        seen := seen + {content};
      }
    }
    assert history[..|history|] == history;
  }
}
