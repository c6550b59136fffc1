/** The post-processing get_cmd and get_cmd_list apply to the model's replies: markdown fences
    are removed, whitespace is trimmed, and the candidate list is de-duplicated, with an `echo`
    command as fallback when nothing usable came back. The API calls themselves are not part
    of this model: a reply is given as an `Option<string>`, None when the response had no
    choice or a null content. */
module Responses {
  import opened Wrappers
  import opened Text

  const OpenFence: string := "```bash\n"
  const CloseFence: string := "\n```"

  const NoCommandGenerated: string := "echo 'Error: No command generated'"
  const NoCommandsGenerated: string := "echo 'Error: No commands generated'"
  const NoValidCommands: string := "echo 'Error: No valid commands generated'"

  /** The clean-up both functions apply to a reply: drop every "```bash\n", then every "\n```",
      then strip whitespace. */
  function CleanReply(content: string): (cmd: string)
    ensures IsStripped(cmd)
    ensures |cmd| <= |content|
  {
    ReplaceAllShrinks(content, OpenFence);
    ReplaceAllShrinks(ReplaceAll(content, OpenFence, ""), CloseFence);
    Strip(ReplaceAll(ReplaceAll(content, OpenFence, ""), CloseFence, ""))
  }

  /** get_cmd after the API call: an absent or empty reply gives the error echo, anything else
      its cleaned form. */
  function GetCmd(reply: Option<string>): (cmd: string)
    ensures IsStripped(cmd)
    ensures reply.None? || reply.value == [] ==> cmd == NoCommandGenerated
    ensures reply.Some? && reply.value != [] ==> |cmd| <= |reply.value|
  {
    match reply
    case None => NoCommandGenerated
    case Some(content) => if content == [] then NoCommandGenerated else CleanReply(content)
  }

  /** A pattern whose second character occurs neither in `a` nor at the head of `tail` cannot
      start inside `a`: replacing it leaves `a` as it is. */
  lemma {:induction false} ReplaceAllSkipsPrefix(a: string, tail: string, pat: string, rep: string)
    requires |pat| >= 2 && pat[1] !in a
    requires tail == [] || tail[0] != pat[1]
    ensures ReplaceAll(a + tail, pat, rep) == a + ReplaceAll(tail, pat, rep)
    decreases |a|
  {
    if a != [] {
      var s := a + tail;
      if |s| >= |pat| {
        var second := if |a| >= 2 then a[1] else tail[0];
        assert s[1] == second;
        assert s[..|pat|][1] == s[1];
        assert ReplaceAll(s, pat, rep) == [a[0]] + ReplaceAll(s[1..], pat, rep);
        assert s[1..] == a[1..] + tail;
        ReplaceAllSkipsPrefix(a[1..], tail, pat, rep);
        assert [a[0]] + a[1..] == a;
      } else {
        assert ReplaceAll(s, pat, rep) == s;
        assert ReplaceAll(tail, pat, rep) == tail;
      }
    } else {
      assert a + tail == tail;
    }
  }

  /** Every backtick of `c + CloseFence` sits too close to the end for "```bash\n" to fit. */
  lemma OpenFenceAbsent(c: string)
    requires '`' !in c
    ensures ReplaceAll(c + CloseFence, OpenFence, "") == c + CloseFence
  {
    var s := c + CloseFence;
    forall i | 0 <= i <= |s| - |OpenFence| ensures !StartsWith(s[i..], OpenFence) {
      assert s[i..][..|OpenFence|][0] == s[i] == c[i];
    }
    ReplaceAllNoMatch(s, OpenFence, "");
  }

  /** A reply wrapped in a bash code fence, as chat models often send it, yields the command
      inside with surrounding whitespace removed. */
  lemma FencedReply(c: string)
    requires '`' !in c
    ensures GetCmd(Some(OpenFence + c + CloseFence)) == Strip(c)
  {
    var s := OpenFence + c + CloseFence;
    assert s[..|OpenFence|] == OpenFence;
    assert s[|OpenFence|..] == c + CloseFence;
    OpenFenceAbsent(c);
    assert ReplaceAll(s, OpenFence, "") == c + CloseFence;
    ReplaceAllSkipsPrefix(c, CloseFence, CloseFence, "");
    assert CloseFence[..|CloseFence|] == CloseFence;
    assert ReplaceAll(CloseFence, CloseFence, "") == [];
    assert c + [] == c;
  }

  /** A reply without any backtick is only stripped. */
  lemma UnfencedReply(c: string)
    requires c != [] && '`' !in c
    ensures GetCmd(Some(c)) == Strip(c)
  {
    ReplaceAllSkipsPrefix(c, [], OpenFence, "");
    ReplaceAllSkipsPrefix(c, [], CloseFence, "");
    assert c + [] == c;
  }

  // ---------------------------------------------------------------------------------------
  // get_cmd_list
  // ---------------------------------------------------------------------------------------

  /** A reply the first loop of get_cmd_list keeps: one with a non-empty content. */
  predicate Usable(reply: Option<string>) {
    reply.Some? && reply.value != []
  }

  /** The first loop of get_cmd_list: every reply with a non-empty content, cleaned. */
  function CleanedReplies(replies: seq<Option<string>>): (cmds: seq<string>)
    ensures |cmds| <= |replies|
    ensures forall k :: 0 <= k < |cmds| ==> IsStripped(cmds[k])
    ensures (forall k :: 0 <= k < |replies| ==> !Usable(replies[k])) <==> cmds == []
  {
    if replies == [] then []
    else
      var rest := CleanedReplies(replies[1..]);
      if Usable(replies[0]) then [CleanReply(replies[0].value)] + rest else rest
  }

  /** Every usable reply contributes its cleaned content. */
  lemma {:induction false} CleanedRepliesKeeps(replies: seq<Option<string>>, k: nat)
    requires k < |replies| && Usable(replies[k])
    ensures CleanReply(replies[k].value) in CleanedReplies(replies)
  {
    if k > 0 {
      assert replies[k] == replies[1..][k - 1];
      CleanedRepliesKeeps(replies[1..], k - 1);
    }
  }

  /** Every candidate is the cleaned content of some usable reply. */
  lemma {:induction false} CleanedRepliesFrom(replies: seq<Option<string>>, c: string)
    requires c in CleanedReplies(replies)
    ensures exists k :: 0 <= k < |replies| && Usable(replies[k]) && c == CleanReply(replies[k].value)
  {
    var tail := replies[1..];
    if Usable(replies[0]) && c == CleanReply(replies[0].value) {
      assert 0 < |replies|;
    } else {
      assert c in CleanedReplies(tail);
      CleanedRepliesFrom(tail, c);
      var k :| 0 <= k < |tail| && Usable(tail[k]) && c == CleanReply(tail[k].value);
      assert replies[k + 1] == tail[k];
    }
  }

  /** The candidates are exactly the cleaned contents of the usable replies. */
  lemma CleanedRepliesMembers(replies: seq<Option<string>>, c: string)
    ensures c in CleanedReplies(replies) <==>
              exists k :: 0 <= k < |replies| && Usable(replies[k]) && c == CleanReply(replies[k].value)
  {
    if c in CleanedReplies(replies) {
      CleanedRepliesFrom(replies, c);
    }
    forall k | 0 <= k < |replies| && Usable(replies[k]) && c == CleanReply(replies[k].value)
      ensures c in CleanedReplies(replies)
    {
      CleanedRepliesKeeps(replies, k);
    }
  }

  function NonEmpty(xs: seq<string>): (ys: seq<string>)
    ensures forall y :: y in ys <==> y in xs && y != []
  {
    if xs == [] then []
    else if xs[0] == [] then NonEmpty(xs[1..])
    else [xs[0]] + NonEmpty(xs[1..])
  }

  /** list(set(xs)): every element once. Python leaves the order to the hash of the strings;
      this model keeps first occurrences in order, and the contracts speak only of the set. */
  function Dedup(xs: seq<string>): (ys: seq<string>)
    ensures Distinct(ys)
    ensures forall y :: y in ys <==> y in xs
    ensures |ys| <= |xs|
  {
    if xs == [] then []
    else
      var init := Dedup(xs[..|xs| - 1]);
      var last := xs[|xs| - 1];
      assert forall y :: y in xs <==> y in xs[..|xs| - 1] || y == last;
      if last in init then init else init + [last]
  }

  /** get_cmd_list after the API call, as written: the emptiness test comes before the empty
      candidates are filtered out. */
  function CommandListAsWritten(replies: seq<Option<string>>): (cmds: seq<string>)
    ensures replies == [] ==> cmds == [NoCommandsGenerated]
    ensures replies != [] && CleanedReplies(replies) == [] ==> cmds == [NoValidCommands]
    ensures replies != [] && CleanedReplies(replies) != [] ==>
              Distinct(cmds) && forall c :: c in cmds <==> c in CleanedReplies(replies) && c != []
  {
    if replies == [] then [NoCommandsGenerated]
    else
      var cleaned := CleanedReplies(replies);
      if cleaned == [] then [NoValidCommands]
      else Dedup(NonEmpty(cleaned))
  }

  /** A single reply made of spaces passes the emptiness test, is then filtered away, and the
      list of alternatives comes back empty instead of holding the fallback echo. */
  lemma BlankReplyGivesNoCandidates()
    ensures CommandListAsWritten([Some("   ")]) == []
  {
    var blank := "   ";
    assert CleanedReplies([Some(blank)]) == [CleanReply(blank)];
    assert CleanReply(blank) == [] by {
      ReplaceAllSkipsPrefix(blank, [], OpenFence, "");
      ReplaceAllSkipsPrefix(blank, [], CloseFence, "");
      assert blank + [] == blank;
      StripEmptyIffAllSpace(blank);
    }
    assert NonEmpty([[]]) == [];
  }

  /** get_cmd_list with the fallback applied after the filtering: never empty. */
  function CommandList(replies: seq<Option<string>>): (cmds: seq<string>)
    ensures cmds != []
    ensures Distinct(cmds)
    ensures replies == [] ==> cmds == [NoCommandsGenerated]
    ensures replies != [] && NonEmpty(CleanedReplies(replies)) == [] ==> cmds == [NoValidCommands]
    ensures replies != [] && NonEmpty(CleanedReplies(replies)) != [] ==>
              forall c :: c in cmds <==> c in CleanedReplies(replies) && c != []
  {
    if replies == [] then [NoCommandsGenerated]
    else
      var candidates := NonEmpty(CleanedReplies(replies));
      if candidates == [] then [NoValidCommands]
      else Dedup(candidates)
  }

  /** The corrected list agrees with the written one whenever the written one is not empty. */
  lemma CommandListAgrees(replies: seq<Option<string>>)
    requires CommandListAsWritten(replies) != []
    ensures CommandList(replies) == CommandListAsWritten(replies)
  {
  }
}
