/** The chat history of ai.py's chat mode: a list of messages, cut from the front while it holds
    more than 2000 words before each request, and saved with only its last 50 messages. The
    pickle file that holds it between runs and the API request are not part of this model: the
    loaded history and the reply are parameters. */
module History {
  import opened Wrappers
  import opened Text

  datatype Message = Message(role: string, content: string)

  /** The word budget of the history sent with a request. */
  const WordLimit: nat := 2000

  /** The number of messages save_history keeps by default. */
  const SavedMessages: int := 50

  const EmptyResponse: string := "Error: Empty response from API. Please check your model and API configuration."

  /** save_history's slice history[-limit:], with Python's rules for negative and oversized
      bounds: a positive limit keeps at most the last `limit` messages, 0 keeps all of them, a
      negative one drops the first -limit. */
  function SaveHistory(history: seq<Message>, limit: int): (kept: seq<Message>)
    ensures |kept| <= |history| && kept == history[|history| - |kept|..]
  {
    var start :=
      if limit > 0 then (if limit >= |history| then 0 else |history| - limit)
      else (if -limit >= |history| then |history| else -limit);
    history[start..]
  }

  /** With a positive limit, exactly the last min(limit, |history|) messages are kept, in order. */
  lemma SaveHistoryKeepsLast(history: seq<Message>, limit: int)
    requires limit > 0
    ensures |SaveHistory(history, limit)| == if limit < |history| then limit else |history|
    ensures SaveHistory(history, limit) == history[|history| - |SaveHistory(history, limit)|..]
  {
  }

  /** A limit of 0 keeps everything: history[-0:] is the whole list. */
  lemma SaveHistoryZeroKeepsAll(history: seq<Message>)
    ensures SaveHistory(history, 0) == history
  {
  }

  /** The number of words of the history, as sum(len(h["content"].split()) for h in history). */
  function TotalWords(history: seq<Message>): (n: nat)
    ensures history == [] ==> n == 0
  {
    if history == [] then 0 else |SplitWords(history[0].content)| + TotalWords(history[1..])
  }

  /** The count is additive: a history's words are those of its two parts. */
  lemma {:induction false} TotalWordsAppend(a: seq<Message>, b: seq<Message>)
    ensures TotalWords(a + b) == TotalWords(a) + TotalWords(b)
  {
    if a == [] {
      assert a + b == b;
    } else {
      assert (a + b)[0] == a[0] && (a + b)[1..] == a[1..] + b;
      TotalWordsAppend(a[1..], b);
    }
  }

  /** One message counts the whitespace-separated words of its content. */
  lemma TotalWordsOfOne(m: Message)
    ensures TotalWords([m]) == |SplitWords(m.content)|
  {
    assert [m][1..] == [];
  }

  /** More words than the budget allows. */
  predicate OverBudget(history: seq<Message>) {
    TotalWords(history) > WordLimit
  }

  /** `trimmed` is what is left of `history` once messages are dropped from the front until it
      is within the budget: a suffix within the budget, and no longer suffix is. */
  predicate LongestSuffixWithinBudget(history: seq<Message>, trimmed: seq<Message>) {
    && |trimmed| <= |history| && trimmed == history[|history| - |trimmed|..]
    && !OverBudget(trimmed)
    && forall k :: 0 <= k < |history| - |trimmed| ==> OverBudget(history[k..])
  }

  /** Only one suffix is the longest within the budget. */
  lemma LongestSuffixUnique(history: seq<Message>, t1: seq<Message>, t2: seq<Message>)
    requires LongestSuffixWithinBudget(history, t1) && LongestSuffixWithinBudget(history, t2)
    ensures t1 == t2
  {
    // Mention both suffixes, so that the "no longer suffix" clause of each applies to the other.
    ghost var over1 := OverBudget(history[|history| - |t1|..]);
    ghost var over2 := OverBudget(history[|history| - |t2|..]);
  }

  /** The loop at the top of chat: drop the oldest message while the history is over the word
      budget. The result is the longest suffix of the history within the budget. */
  method TrimHistory(history: seq<Message>) returns (trimmed: seq<Message>)
    ensures LongestSuffixWithinBudget(history, trimmed)
  {
    trimmed := history;
    ghost var dropped := 0;
    while TotalWords(trimmed) > WordLimit
      invariant 0 <= dropped <= |history| && trimmed == history[dropped..]
      invariant forall k :: 0 <= k < dropped ==> OverBudget(history[k..])
      decreases |trimmed|
    {
      trimmed := trimmed[1..];
      dropped := dropped + 1;
    }
  }

  predicate HasSystemMessage(history: seq<Message>) {
    exists i :: 0 <= i < |history| && history[i].role == "system"
  }

  /** One turn of chat: trim the loaded history, add the system message when none is left (at
      the end, after what was kept), add the prompt, send, and save the history with the
      stripped reply. `reply` is None when the response had no choice or an empty content. */
  method ChatTurn(loaded: seq<Message>, prompt: string, systemMessage: string, reply: Option<string>)
    returns (trimmed: seq<Message>, sent: seq<Message>, content: string, saved: seq<Message>)
    ensures LongestSuffixWithinBudget(loaded, trimmed)
    ensures HasSystemMessage(trimmed) ==> sent == trimmed + [Message("user", prompt)]
    ensures !HasSystemMessage(trimmed) ==>
              sent == trimmed + [Message("system", systemMessage), Message("user", prompt)]
    ensures HasSystemMessage(sent)
    ensures reply.None? || reply.value == [] ==> content == EmptyResponse
    ensures reply.Some? && reply.value != [] ==> content == Strip(reply.value)
    ensures saved == SaveHistory(sent + [Message("assistant", content)], SavedMessages)
    ensures 1 <= |saved| <= 50 && saved[|saved| - 1] == Message("assistant", content)
  {
    trimmed := TrimHistory(loaded);
    var history := trimmed;
    if |history| == 0 || !HasSystemMessage(history) {
      history := history + [Message("system", systemMessage)];
      assert history[|history| - 1].role == "system";
    }
    assert HasSystemMessage(history + [Message("user", prompt)]) by {
      var i :| 0 <= i < |history| && history[i].role == "system";
      assert (history + [Message("user", prompt)])[i] == history[i];
    }
    history := history + [Message("user", prompt)];
    sent := history;
    if reply.None? || reply.value == [] {
      content := EmptyResponse;
    } else {
      content := Strip(reply.value);
    }
    history := history + [Message("assistant", content)];
    saved := SaveHistory(history, SavedMessages);
  }
}
