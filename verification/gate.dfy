/** What the main script of ai.py does with a verdict: the safety mode read from its
    configuration file, the rule that decides whether the user must confirm, the decline path
    that offers alternative commands, and the optional context added to the prompt. */
module Gate {
  import opened Wrappers
  import opened Text
  import opened PyInt
  import opened Safety

  // ---------------------------------------------------------------------------------------
  // Safety mode and confirmation
  // ---------------------------------------------------------------------------------------

  /** get_safety_mode: `config` is the content of the openai_safety_mode file, None when the file
      does not exist. 0 means always ask, 1 means run safe commands without asking; anything
      that is not the integer 0 or 1 counts as 0. */
  function SafetyMode(config: Option<string>): (mode: int)
    ensures mode == 0 || mode == 1
    ensures mode == 1 <==> config.Some? && ParseInt(config.value) == Some(1)
  {
    match config
    case None => 0
    case Some(text) =>
      ParseIntOfStripped(text);
      match ParseInt(Strip(text))
      case Some(m) => if m == 0 || m == 1 then m else 0
      case None => 0
  }

  /** Whatever integer the file holds, only 1 turns auto-run on. */
  lemma SafetyModeOfInteger(n: int)
    ensures SafetyMode(Some(IntToString(n))) == (if n == 1 then 1 else 0)
  {
    ParseIntRoundTrip(n);
  }

  /** The rule of the main script: confirmation is needed unless the mode is 1 and the command
      was judged safe. */
  predicate NeedsConfirmation(mode: int, isSafe: bool): (ask: bool)
    ensures !isSafe ==> ask
    ensures mode != 1 ==> ask
  {
    !(mode == 1 && isSafe)
  }

  /** The gate and the classifier together: a command runs without being confirmed exactly when
      the mode file holds the integer 1 and either a safe pattern matches or no dangerous
      pattern matches and no heuristic fires. */
  lemma AutoRunIff(config: Option<string>, cmd: string, safe: seq<string>, dangerous: seq<string>,
                   matches: (string, string) -> bool)
    ensures !NeedsConfirmation(SafetyMode(config), Classify(cmd, safe, dangerous, matches).isSafe)
        <==> && config.Some? && ParseInt(config.value) == Some(1)
             && ((exists i :: 0 <= i < |safe| && matches(safe[i], cmd))
                 || ((forall k :: 0 <= k < |dangerous| ==> !matches(dangerous[k], cmd))
                     && !PipesToShellHeuristic(cmd) && !RedirectsToSystemHeuristic(cmd)
                     && !DownloadHeuristic(cmd)))
  {
    SafeVerdictIff(cmd, safe, dangerous, matches);
  }

  // ---------------------------------------------------------------------------------------
  // Confirmation answer and alternatives
  // ---------------------------------------------------------------------------------------

  /** How a command that runs was agreed to. */
  datatype Consent = AutoRun | Accepted | ChoseAlternative(index: nat)

  /** What the main script does in the end: run a command, or exit with "No command executed." */
  datatype Outcome = Run(command: string, consent: Consent) | NoCommand

  /** The alternative-command prompt: the reply is accepted only when it is all digits and its
      value is below the number of alternatives shown. */
  function ChooseAlternative(choice: string, count: nat): (r: Option<nat>)
    ensures r.Some? ==> r.value < count
    ensures r.Some? <==> IsDigitString(choice) && DecimalValue(choice) < count
    ensures r.Some? ==> r.value == DecimalValue(choice)
  {
    if IsDigitString(choice) && DecimalValue(choice) < count then Some(DecimalValue(choice)) else None
  }

  /** Typing back the number shown beside an alternative selects that alternative. */
  lemma ChooseShownIndex(i: nat, count: nat)
    ensures ChooseAlternative(NatToDecimal(i), count) == (if i < count then Some(i) else None)
  {
    DecimalRoundTrip(i);
  }

  /** The main script from the verdict on: ask unless auto-run is allowed; an answer whose
      lower-case form is "n" declines and leads to the alternatives, any other answer (the empty
      one included) runs the command. */
  function Decide(cmd: string, isSafe: bool, mode: int, answer: string,
                  alternatives: seq<string>, choice: string): (o: Outcome)
    ensures o == Run(cmd, AutoRun) <==> !NeedsConfirmation(mode, isSafe)
    ensures o == Run(cmd, Accepted) <==> NeedsConfirmation(mode, isSafe) && Lower(answer) != "n"
    ensures o.Run? && o.consent.ChoseAlternative? ==>
              && NeedsConfirmation(mode, isSafe) && Lower(answer) == "n"
              && o.consent.index < |alternatives| && o.command == alternatives[o.consent.index]
    ensures o == NoCommand <==>
              NeedsConfirmation(mode, isSafe) && Lower(answer) == "n"
              && ChooseAlternative(choice, |alternatives|).None?
    ensures NeedsConfirmation(mode, isSafe) && Lower(answer) == "n"
            && ChooseAlternative(choice, |alternatives|).Some? ==>
              var i := ChooseAlternative(choice, |alternatives|).value;
              o == Run(alternatives[i], ChoseAlternative(i))
  {
    if !NeedsConfirmation(mode, isSafe) then Run(cmd, AutoRun)
    else if Lower(answer) != "n" then Run(cmd, Accepted)
    else match ChooseAlternative(choice, |alternatives|)
      case Some(i) => Run(alternatives[i], ChoseAlternative(i))
      case None => NoCommand
  }

  /** Only "n" and "N" decline; "no", "nope" or an empty answer all run the command. */
  lemma DeclineOnlyOnN(answer: string)
    ensures Lower(answer) == "n" <==> answer == "n" || answer == "N"
  {
    if Lower(answer) == "n" {
      assert |answer| == 1 && LowerChar(answer[0]) == 'n';
    }
  }

  // ---------------------------------------------------------------------------------------
  // Context for the prompt
  // ---------------------------------------------------------------------------------------

  /** The number of entries of the CONTEXT table (one of the eight is commented out). */
  const ContextCount: nat := 7

  /** The cap on the length of the context added to the prompt. */
  const ContextLimit: nat := 3000

  /** The parse in get_needed_context: the integer the model's reply holds, -1 when int() fails. */
  function NeededContext(reply: string): (choice: int)
    ensures ParseInt(reply).Some? ==> choice == ParseInt(reply).value
    ensures ParseInt(reply).None? ==> choice == -1
  {
    ParseIntOfStripped(reply);
    match ParseInt(Strip(reply))
    case Some(n) => n
    case None => -1
  }

  /** A reply that is an integer in Python's own notation is read back exactly. */
  lemma NeededContextOfInteger(n: int)
    ensures NeededContext(IntToString(n)) == n
  {
    ParseIntRoundTrip(n);
  }

  /** The context index as the main script computes it: -C when given (argparse limits it to
      0..6, default -1), otherwise, with -c, the model's reply; a negative index means no
      context. The index is then used on CONTEXT without any upper bound check. */
  function ContextIndexAsWritten(autoContext: bool, explicit: int, reply: string): (r: Option<int>)
    requires explicit == -1 || 0 <= explicit < ContextCount
    ensures r.Some? ==> r.value >= 0
    ensures !autoContext && explicit < 0 ==> r == None
    ensures explicit >= 0 ==> r == Some(explicit)
  {
    if !(autoContext || explicit >= 0) then None
    else
      var needed := if explicit < 0 then NeededContext(reply) else explicit;
      if needed >= 0 then Some(needed) else None
  }

  /** A model reply of "9" selects index 9 of a 7-entry table (IndexError in the source). */
  lemma ReplyBeyondContexts()
    ensures ContextIndexAsWritten(true, -1, IntToString(9)) == Some(9)
    ensures 9 >= ContextCount
  {
    NeededContextOfInteger(9);
  }

  /** With -c and no -C, the model's reply names the index as written: any non-negative integer,
      however large, and none for a negative one. */
  lemma ReplyIndexAsWritten(k: int)
    ensures ContextIndexAsWritten(true, -1, IntToString(k)) == (if k >= 0 then Some(k) else None)
  {
    NeededContextOfInteger(k);
  }

  /** The context index with the bound the table needs: an out-of-range reply means no context,
      as a negative one already does. */
  function ContextIndex(autoContext: bool, explicit: int, reply: string): (r: Option<nat>)
    requires explicit == -1 || 0 <= explicit < ContextCount
    ensures r.Some? ==> r.value < ContextCount
    ensures explicit >= 0 ==> r == Some(explicit)
    ensures !autoContext && explicit < 0 ==> r == None
  {
    match ContextIndexAsWritten(autoContext, explicit, reply)
    case Some(i) => if i < ContextCount then Some(i) else None
    case None => None
  }

  /** With -c and no -C, the bounded index is the reply's integer exactly when it names an entry. */
  lemma ReplyIndex(k: int)
    ensures ContextIndex(true, -1, IntToString(k)) == (if 0 <= k < ContextCount then Some(k as nat) else None)
  {
    NeededContextOfInteger(k);
  }

  /** The bound changes nothing for replies the table can serve. */
  lemma ContextIndexAgrees(autoContext: bool, explicit: int, reply: string)
    requires explicit == -1 || 0 <= explicit < ContextCount
    ensures var w := ContextIndexAsWritten(autoContext, explicit, reply);
      ContextIndex(autoContext, explicit, reply) == (if w.Some? && w.value < ContextCount then Some(w.value as nat) else None)
  {
  }

  /** The context prompt is cut to its first 3000 characters. */
  function TruncateContext(s: string): (r: string)
    ensures |r| == if |s| <= ContextLimit then |s| else ContextLimit
    ensures r == s[..|r|]
  {
    if |s| > ContextLimit then s[..ContextLimit] else s
  }

  /** The context text added to the prompt; `gathered[i]` is what the i-th gatherer of CONTEXT
      returns (their subprocess calls are not part of this model). */
  function ContextPrompt(autoContext: bool, explicit: int, reply: string, gathered: seq<string>): (p: string)
    requires explicit == -1 || 0 <= explicit < ContextCount
    requires |gathered| == ContextCount
    ensures |p| <= ContextLimit
    ensures ContextIndex(autoContext, explicit, reply).None? ==> p == []
    ensures ContextIndex(autoContext, explicit, reply).Some? ==>
              p == TruncateContext(gathered[ContextIndex(autoContext, explicit, reply).value])
  {
    match ContextIndex(autoContext, explicit, reply)
    case None => ""
    case Some(i) => TruncateContext(gathered[i])
  }
}
