/** The command-safety classifier of ai.py (analyze_command_safety): two pattern lists, each read
    from a text file or taken from built-in defaults, a fixed decision order (safe patterns, then
    dangerous patterns, then three substring heuristics) and a safe default.

    Python's re.search(pattern, cmd, re.IGNORECASE) is not modelled; every member takes it as the
    parameter `matches`, so every property below holds whatever the regular-expression engine does. */
module Safety {
  import opened Wrappers
  import opened Text

  /** The built-in dangerous patterns, used when dangerous_patterns.txt does not exist. */
  const DefaultDangerousPatterns: seq<string> := [
    "\\brm\\s+(-[rf]+\\s+)?(\\/|~|\\$HOME|\\${HOME}|\\$USER|\\${USER})",
    "\\bmv\\s+.+\\s+(\\/|~|\\$HOME|\\${HOME}|\\$USER|\\${USER})",
    "\\bdd\\s+",
    "\\bformat\\s+",
    "\\bmkfs\\s+",
    "del\\s+.*\\/[QqSs]",
    "Remove-Item\\s+.*\\s+-Recurse",
    "Remove-Item\\s+.*\\s+-Force",
    "\\bsudo\\s+",
    "\\bsu\\s+",
    "\\brunas\\s+",
    "Start-Process\\s+.*\\s+-Verb\\s+RunAs",
    "psexec\\s+",
    "\\bssh\\s+.+\\s+-exec",
    "\\btelnet\\s+",
    "Invoke-Command\\s+.*\\s+-ComputerName",
    "Enter-PSSession\\s+",
    "\\biptables\\s+-(A|D|P|F|X|Z|I|R)\\s+",
    "\\bnetsh\\s+firewall\\s+",
    "\\bnetsh\\s+advfirewall\\s+",
    "\\broute\\s+add\\s+",
    "New-NetFirewallRule\\s+",
    "Set-NetFirewallRule\\s+",
    "\\bchmod\\s+777\\s+",
    "\\bchmod\\s+[+]x\\s+",
    "\\bicacls\\s+.*\\s+\\/grant\\s+",
    "Set-Acl\\s+",
    "Set-ItemProperty\\s+",
    "\\bkill\\s+-9\\s+",
    "\\bpkill\\s+-9\\s+",
    "\\btaskkill\\s+\\/F\\s+",
    "Stop-Process\\s+.*\\s+-Force",
    "\\bsystemctl\\s+(stop|disable|mask)\\s+",
    "\\bservice\\s+.+\\s+stop\\s+",
    "\\bsc\\s+stop\\s+",
    "Stop-Service\\s+",
    "Set-Service\\s+",
    "Disable-ComputerRestore\\s+",
    "reg\\s+(add|delete)\\s+",
    "Set-ItemProperty\\s+.*\\s+HKLM:",
    "New-ItemProperty\\s+.*\\s+HKLM:",
    "Remove-ItemProperty\\s+.*\\s+HKLM:",
    "curl\\s+.+\\s+\\|\\s+sh",
    "wget\\s+.+\\s+\\|\\s+sh",
    "curl\\s+.+\\s+\\|\\s+bash",
    "wget\\s+.+\\s+\\|\\s+bash",
    "powershell\\s+-e\\s+",
    "powershell\\s+.*\\s+iex\\s+",
    "powershell\\s+.*\\s+downloadstring\\s+",
    "Invoke-Expression\\s+",
    "Invoke-WebRequest\\s+.*\\s+\\|\\s+Invoke-Expression",
    "Start-BitsTransfer\\s+",
    "\\bcat\\s+.*\\/(passwd|shadow|\\.ssh\\/|\\.aws\\/)",
    "\\btype\\s+.*\\/(passwd|shadow|\\.ssh\\/|\\.aws\\/)",
    "\\bgrep\\s+.*\\/(passwd|shadow|\\.ssh\\/|\\.aws\\/)",
    "Get-Content\\s+.*\\s+(password|credential|secret)",
    "\\bshutdown\\b",
    "\\breboot\\b",
    "\\bhalt\\b",
    "\\bpoweroff\\b",
    "\\binit\\s+0\\b",
    "\\binit\\s+6\\b",
    "Stop-Computer\\b",
    "Restart-Computer\\b",
    "format\\s+[a-zA-Z]:",
    "diskpart\\b",
    "fdisk\\b",
    "Clear-Disk\\b",
    "net\\s+user\\s+.*\\s+\\/add",
    "net\\s+localgroup\\s+administrators\\s+.*\\s+\\/add",
    "New-LocalUser\\b",
    "Add-LocalGroupMember\\b",
    "Enable-LocalUser\\b",
    "Disable-LocalUser\\b",
    "schtasks\\s+\\/create",
    "New-ScheduledTask\\b",
    "Register-ScheduledTask\\b",
    "wbadmin\\s+start\\s+",
    "vssadmin\\s+delete\\s+",
    "bcdedit\\s+\\/set\\s+"
  ]

  /** The built-in safe patterns, used when safe_patterns.txt does not exist. */
  const DefaultSafePatterns: seq<string> := [
    "\\bls\\s+",
    "\\bdir\\s+",
    "Get-ChildItem\\s+",
    "\\becho\\s+",
    "\\bpwd\\s+",
    "\\bcd\\s+",
    "Set-Location\\s+",
    "Get-Location\\b",
    "\\bwhoami\\s*$",
    "\\bdate\\s*$",
    "\\btime\\s*$",
    "Get-Date\\b",
    "\\bclear\\s*$",
    "\\bcls\\s*$",
    "Clear-Host\\b",
    "\\bhistory\\s*$",
    "Get-History\\b",
    "\\bhelp\\s+",
    "\\bman\\s+",
    "Get-Help\\b",
    "Get-Command\\b",
    "\\bfind\\s+",
    "\\bfindstr\\s+",
    "\\bgrep\\s+",
    "Select-String\\b",
    "\\bcat\\s+",
    "\\btype\\s+",
    "Get-Content\\b",
    "\\bping\\s+",
    "Test-Connection\\b",
    "Test-NetConnection\\b",
    "\\bnetstat\\s+",
    "Get-NetTCPConnection\\b",
    "\\bipconfig\\s*$",
    "\\bifconfig\\s*$",
    "Get-NetIPAddress\\b",
    "Get-NetAdapter\\b",
    "\\bnslookup\\s+",
    "Resolve-DnsName\\b",
    "\\btracert\\s+",
    "Test-NetConnection\\s+.*\\s+-TraceRoute",
    "\\bps\\s+",
    "\\btasklist\\s*$",
    "Get-Process\\b",
    "\\btop\\s*$",
    "Get-Counter\\b",
    "\\bdf\\s*$",
    "\\bdu\\s+",
    "Get-PSDrive\\b",
    "Get-Volume\\b",
    "\\bfree\\s*$",
    "Get-ComputerInfo\\b",
    "\\buname\\s+",
    "\\bsysteminfo\\s*$",
    "Get-ComputerInfo\\b",
    "\\bver\\s*$",
    "$PSVersionTable\\b",
    "Get-Host\\b"
  ]

  // ---------------------------------------------------------------------------------------
  // Pattern files
  // ---------------------------------------------------------------------------------------

  /** The lines Python's iteration over a text file yields: every line keeps its '\n', and a last
      line without one is yielded as it is. The text is taken after newline translation. */
  function FileLines(text: string): (lines: seq<string>)
    ensures forall k :: 0 <= k < |lines| ==> lines[k] != []
    ensures Concat(lines) == text
    decreases |text|
  {
    if text == [] then []
    else if '\n' !in text then
      assert Concat([text]) == text + Concat([]);
      [text]
    else
      var i := IndexOf(text, '\n');
      var rest := FileLines(text[i + 1..]);
      assert ([text[..i + 1]] + rest)[1..] == rest;
      assert text[..i + 1] + text[i + 1..] == text;
      [text[..i + 1]] + rest
  }

  /** Only the last line may lack a '\n', and no line holds one before its end. */
  lemma {:induction false} FileLinesShape(text: string)
    ensures forall k :: 0 <= k < |FileLines(text)| - 1 ==> FileLines(text)[k][|FileLines(text)[k]| - 1] == '\n'
    ensures forall k :: 0 <= k < |FileLines(text)| ==> '\n' !in FileLines(text)[k][..|FileLines(text)[k]| - 1]
    decreases |text|
  {
    if text != [] && '\n' in text {
      var i := IndexOf(text, '\n');
      var line, rest := text[..i + 1], FileLines(text[i + 1..]);
      FileLinesShape(text[i + 1..]);
      assert line[..|line| - 1] == text[..i];
      assert FileLines(text) == [line] + rest;
      forall k | 1 <= k < |FileLines(text)| ensures FileLines(text)[k] == rest[k - 1] {
      }
    }
  }

  lemma FileLinesCons(line: string, rest: string)
    requires '\n' !in line
    ensures FileLines(line + "\n" + rest) == [line + "\n"] + FileLines(rest)
  {
    var text := line + "\n" + rest;
    IndexOfAfter(line, '\n', rest);
    assert text[..|line| + 1] == line + "\n";
    assert text[|line| + 1..] == rest;
  }

  /** The filter of a pattern file line: its stripped form is not empty and the raw line does not
      start with '#'. */
  predicate KeepPatternLine(line: string): (keep: bool)
    ensures keep <==> !AllSpace(line) && !StartsWith(line, "#")
  {
    StripEmptyIffAllSpace(line);
    Strip(line) != [] && !StartsWith(line, "#")
  }

  /** The list comprehension that turns the lines of a pattern file into patterns: kept lines,
      stripped, in file order. */
  function LinePatterns(line: string): (patterns: seq<string>)
    ensures |patterns| <= 1
    ensures forall k :: 0 <= k < |patterns| ==> patterns[k] != [] && IsStripped(patterns[k])
  {
    if KeepPatternLine(line) then [Strip(line)] else []
  }

  function PatternLines(lines: seq<string>): (patterns: seq<string>)
    ensures |patterns| <= |lines|
    ensures forall k :: 0 <= k < |patterns| ==> patterns[k] != [] && IsStripped(patterns[k])
  {
    if lines == [] then []
    else
      var first, rest := LinePatterns(lines[0]), PatternLines(lines[1..]);
      assert forall k :: |first| <= k < |first + rest| ==> (first + rest)[k] == rest[k - |first|];
      first + rest
  }

  /** Filtering is line by line: the patterns of two consecutive blocks of lines are the
      patterns of the first block followed by those of the second. */
  lemma {:induction false} PatternLinesAppend(a: seq<string>, b: seq<string>)
    ensures PatternLines(a + b) == PatternLines(a) + PatternLines(b)
  {
    if a == [] {
      assert a + b == b;
    } else {
      assert (a + b)[0] == a[0];
      assert (a + b)[1..] == a[1..] + b;
      PatternLinesAppend(a[1..], b);
      assert PatternLines(a + b) == LinePatterns(a[0]) + PatternLines(a[1..] + b);
    }
  }

  /** A pattern is loaded exactly when some line of the file passes the filter and strips to it. */
  lemma {:induction false} PatternLinesMembership(lines: seq<string>, p: string)
    ensures p in PatternLines(lines) <==> exists k :: 0 <= k < |lines| && KeepPatternLine(lines[k]) && Strip(lines[k]) == p
  {
    if lines != [] {
      PatternLinesMembership(lines[1..], p);
      if exists k :: 0 <= k < |lines[1..]| && KeepPatternLine(lines[1..][k]) && Strip(lines[1..][k]) == p {
        var k :| 0 <= k < |lines[1..]| && KeepPatternLine(lines[1..][k]) && Strip(lines[1..][k]) == p;
        assert lines[k + 1] == lines[1..][k];
      }
      if exists k :: 0 <= k < |lines| && KeepPatternLine(lines[k]) && Strip(lines[k]) == p {
        var k :| 0 <= k < |lines| && KeepPatternLine(lines[k]) && Strip(lines[k]) == p;
        if k > 0 {
          assert lines[1..][k - 1] == lines[k];
        }
      }
    }
  }

  /** Only the raw line is tested for '#': an indented comment is kept, and loaded stripped. */
  lemma IndentedCommentIsPattern()
    ensures KeepPatternLine("  # x\n")
    ensures PatternLines(["  # x\n", "# y\n"]) == ["# x"]
  {
    var line := "  # x\n";
    assert LeadingSpace(line[2..]) == 0;
    assert LeadingSpace(line) == 2;
    assert line[..5][..4] == line[..4];
    assert ContentEnd(line[..5]) == 5;
    assert ContentEnd(line) == 5;
    assert Strip(line) == "# x";
    var lines := ["  # x\n", "# y\n"];
    assert lines[1..][1..] == [];
    assert !KeepPatternLine(lines[1]);
  }

  /** The patterns in use: those of the file when it exists (`Some(text)`), else the defaults.
      An existing file with no pattern line gives an empty list; only a missing file falls back. */
  function LoadPatterns(file: Option<string>, defaults: seq<string>): (patterns: seq<string>)
    ensures file.None? ==> patterns == defaults
    ensures file.Some? ==> forall k :: 0 <= k < |patterns| ==> patterns[k] != [] && IsStripped(patterns[k])
    ensures file.Some? ==> |patterns| <= |FileLines(file.value)|
  {
    match file
    case None => defaults
    case Some(text) => PatternLines(FileLines(text))
  }

  /** A pattern that survives being written on a line of its own and read back. */
  predicate WellFormedPattern(p: string) {
    p != [] && IsStripped(p) && p[0] != '#' && '\n' !in p
  }

  function PatternFileBody(patterns: seq<string>): string
  {
    if patterns == [] then [] else patterns[0] + "\n" + PatternFileBody(patterns[1..])
  }

  function HeaderLine(kind: string): string {
    "# List of " + kind + " command patterns - one regex per line"
  }

  const CommentHeader := "# Lines starting with # are comments"

  /** The text written to dangerous_patterns.txt (kind "dangerous") or safe_patterns.txt (kind
      "safe") when the file is missing: a two-line comment header, a blank line, then one
      pattern per line. */
  function DefaultPatternFile(kind: string, patterns: seq<string>): string
  {
    HeaderLine(kind) + "\n" + (CommentHeader + "\n" + ("\n" + PatternFileBody(patterns)))
  }

  lemma StripOfTerminatedLine(p: string)
    requires p != [] && IsStripped(p)
    ensures Strip(p + "\n") == p
  {
    var s := p + "\n";
    assert s[0] == p[0] && s[|p| - 1] == p[|p| - 1];
    assert LeadingSpace(s) == 0;
    assert s[..|s| - 1] == p;
    assert ContentEnd(s) == |p|;
    assert s[0..|p|] == p;
  }

  lemma TerminatedLineKept(p: string)
    requires WellFormedPattern(p)
    ensures KeepPatternLine(p + "\n") && Strip(p + "\n") == p
  {
    StripOfTerminatedLine(p);
    assert (p + "\n")[0] == p[0];
  }

  lemma BodyLines(p: string, patterns: seq<string>)
    requires '\n' !in p
    ensures FileLines(PatternFileBody([p] + patterns)) == [p + "\n"] + FileLines(PatternFileBody(patterns))
  {
    assert ([p] + patterns)[1..] == patterns;
    FileLinesCons(p, PatternFileBody(patterns));
  }

  lemma {:induction false} BodyReadsBack(patterns: seq<string>)
    requires forall k :: 0 <= k < |patterns| ==> WellFormedPattern(patterns[k])
    ensures PatternLines(FileLines(PatternFileBody(patterns))) == patterns
  {
    if patterns != [] {
      var p, rest := patterns[0], patterns[1..];
      assert patterns == [p] + rest;
      BodyReadsBack(rest);
      BodyLines(p, rest);
      TerminatedLineKept(p);
      PatternLinesAppend([p + "\n"], FileLines(PatternFileBody(rest)));
    }
  }

  lemma {:induction false} NoKeptLines(lines: seq<string>)
    requires forall k :: 0 <= k < |lines| ==> !KeepPatternLine(lines[k])
    ensures PatternLines(lines) == []
  {
    if lines != [] {
      NoKeptLines(lines[1..]);
    }
  }

  lemma HeaderHasNoNewline(kind: string)
    requires '\n' !in kind
    ensures '\n' !in HeaderLine(kind) && '\n' !in CommentHeader
  {
    var a, b := "# List of ", " command patterns - one regex per line";
    assert forall i :: 0 <= i < |a| ==> a[i] != '\n';
    assert forall i :: 0 <= i < |b| ==> b[i] != '\n';
    assert forall i :: 0 <= i < |CommentHeader| ==> CommentHeader[i] != '\n';
  }

  lemma FileLinesThree(a: string, b: string, c: string, body: string)
    requires '\n' !in a && '\n' !in b && '\n' !in c
    ensures FileLines(a + "\n" + (b + "\n" + (c + "\n" + body))) == [a + "\n", b + "\n", c + "\n"] + FileLines(body)
  {
    FileLinesCons(a, b + "\n" + (c + "\n" + body));
    FileLinesCons(b, c + "\n" + body);
    FileLinesCons(c, body);
  }

  lemma HeaderLines(kind: string, body: string)
    requires '\n' !in kind
    ensures FileLines(HeaderLine(kind) + "\n" + (CommentHeader + "\n" + ("\n" + body)))
         == [HeaderLine(kind) + "\n", CommentHeader + "\n", "\n"] + FileLines(body)
  {
    HeaderHasNoNewline(kind);
    var nl: string := "\n";
    assert [] + nl == nl;
    FileLinesThree(HeaderLine(kind), CommentHeader, [], body);
  }

  lemma HeaderIsSkipped(kind: string, body: string)
    requires '\n' !in kind
    ensures PatternLines(FileLines(HeaderLine(kind) + "\n" + (CommentHeader + "\n" + ("\n" + body))))
         == PatternLines(FileLines(body))
  {
    HeaderLines(kind, body);
    var header := [HeaderLine(kind) + "\n", CommentHeader + "\n", "\n"];
    HeaderKeepsNothing(kind);
    PatternLinesAppend(header, FileLines(body));
  }

  /** The two comment lines and the blank line of the header yield no pattern. */
  lemma HeaderKeepsNothing(kind: string)
    ensures PatternLines([HeaderLine(kind) + "\n", CommentHeader + "\n", "\n"]) == []
  {
    var header := [HeaderLine(kind) + "\n", CommentHeader + "\n", "\n"];
    assert StartsWith(header[0], "#") && StartsWith(header[1], "#");
    assert Strip(header[2]) == [];
    NoKeptLines(header);
  }

  /** Reading back a default pattern file gives exactly the patterns written, so the run that
      creates the file and every later run classify with the same lists. */
  lemma DefaultPatternFileRoundTrip(kind: string, patterns: seq<string>)
    requires '\n' !in kind
    requires forall k :: 0 <= k < |patterns| ==> WellFormedPattern(patterns[k])
    ensures LoadPatterns(Some(DefaultPatternFile(kind, patterns)), patterns) == patterns
  {
    HeaderIsSkipped(kind, PatternFileBody(patterns));
    BodyReadsBack(patterns);
  }

  // ---------------------------------------------------------------------------------------
  // The verdict
  // ---------------------------------------------------------------------------------------

  /** Why a command got its verdict; Message gives the text ai.py shows. */
  datatype Reason =
    | KnownSafe
    | DangerousPattern(pattern: string)
    | PipesToShell
    | RedirectsToSystem
    | DownloadsContent
    | NothingDangerous

  /** The pair (is_safe, reason) analyze_command_safety returns. */
  datatype Assessment = Assessment(isSafe: bool, reason: Reason)

  const DangerousPrefix: string := "Command contains potentially dangerous pattern: "

  function Message(r: Reason): (m: string)
    ensures r.DangerousPattern? ==> |m| > |r.pattern| && m[|m| - |r.pattern|..] == r.pattern
  {
    match r
    case KnownSafe => "Command appears to be safe (basic system information or navigation)"
    case DangerousPattern(p) =>
      assert (DangerousPrefix + p)[|DangerousPrefix|..] == p;
      DangerousPrefix + p
    case PipesToShell => "Command pipes output to a shell, which could be dangerous"
    case RedirectsToSystem => "Command redirects output to system directories"
    case DownloadsContent => "Command downloads content from the internet"
    case NothingDangerous => "No obvious dangerous patterns detected"
  }

  const Shells: seq<string> := ["sh", "bash", "powershell", "cmd", "invoke-expression", "iex"]
  const SystemPaths: seq<string> := ["/etc", "/bin", "/sbin", "/usr", "c:\\windows", "%windir%", "system32"]
  const DownloadTools: seq<string> := ["wget", "curl", "invoke-webrequest", "start-bitstransfer"]

  /** A pipe, and a shell name anywhere in the lower-cased command. */
  predicate PipesToShellHeuristic(cmd: string) {
    '|' in cmd && exists shell :: shell in Shells && Contains(Lower(cmd), shell)
  }

  /** A '>' redirect, and a system path anywhere in the lower-cased command. */
  predicate RedirectsToSystemHeuristic(cmd: string) {
    '>' in cmd && exists path :: path in SystemPaths && Contains(Lower(cmd), path)
  }

  /** The lower-cased command starts with the name of a download tool. */
  predicate DownloadHeuristic(cmd: string) {
    exists tool :: tool in DownloadTools && StartsWith(Lower(cmd), tool)
  }

  /** The index of the first pattern, in list order, that matches the command. */
  function FirstMatch(patterns: seq<string>, cmd: string, matches: (string, string) -> bool): (r: Option<nat>)
    ensures r.None? <==> forall k :: 0 <= k < |patterns| ==> !matches(patterns[k], cmd)
    ensures r.Some? ==> r.value < |patterns| && matches(patterns[r.value], cmd)
    ensures r.Some? ==> forall k :: 0 <= k < r.value ==> !matches(patterns[k], cmd)
  {
    if patterns == [] then None
    else if matches(patterns[0], cmd) then Some(0)
    else match FirstMatch(patterns[1..], cmd, matches)
      case None => None
      case Some(k) => Some(k + 1)
  }

  /** The verdict of analyze_command_safety, given the two pattern lists in use. */
  function Classify(cmd: string, safe: seq<string>, dangerous: seq<string>, matches: (string, string) -> bool): (a: Assessment)
    ensures a.isSafe <==> a.reason == KnownSafe || a.reason == NothingDangerous
    ensures a.reason.DangerousPattern? ==> a.reason.pattern in dangerous && matches(a.reason.pattern, cmd)
  {
    if FirstMatch(safe, cmd, matches).Some? then Assessment(true, KnownSafe)
    else match FirstMatch(dangerous, cmd, matches)
      case Some(k) => Assessment(false, DangerousPattern(dangerous[k]))
      case None =>
        if PipesToShellHeuristic(cmd) then Assessment(false, PipesToShell)
        else if RedirectsToSystemHeuristic(cmd) then Assessment(false, RedirectsToSystem)
        else if DownloadHeuristic(cmd) then Assessment(false, DownloadsContent)
        else Assessment(true, NothingDangerous)
  }

  /** The body of analyze_command_safety once the lists are loaded: the safe list is scanned
      first, then the dangerous list, each with an early return on the first match, then the
      three heuristics in order. */
  method ScanCommand(cmd: string, safe: seq<string>, dangerous: seq<string>,
                     matches: (string, string) -> bool)
    returns (verdict: Assessment)
    ensures verdict == Classify(cmd, safe, dangerous, matches)
  {
    for i := 0 to |safe|
      invariant forall k :: 0 <= k < i ==> !matches(safe[k], cmd)
    {
      if matches(safe[i], cmd) {
        return Assessment(true, KnownSafe);
      }
    }
    for i := 0 to |dangerous|
      invariant forall k :: 0 <= k < i ==> !matches(dangerous[k], cmd)
    {
      if matches(dangerous[i], cmd) {
        return Assessment(false, DangerousPattern(dangerous[i]));
      }
    }
    if PipesToShellHeuristic(cmd) {
      return Assessment(false, PipesToShell);
    }
    if RedirectsToSystemHeuristic(cmd) {
      return Assessment(false, RedirectsToSystem);
    }
    if DownloadHeuristic(cmd) {
      return Assessment(false, DownloadsContent);
    }
    return Assessment(true, NothingDangerous);
  }

  /** analyze_command_safety: loads both pattern lists (a missing file means the defaults), then
      scans them. */
  method AnalyzeCommandSafety(cmd: string, dangerousFile: Option<string>, safeFile: Option<string>,
                              matches: (string, string) -> bool)
    returns (verdict: Assessment)
    ensures verdict == Classify(cmd, LoadPatterns(safeFile, DefaultSafePatterns),
                                LoadPatterns(dangerousFile, DefaultDangerousPatterns), matches)
  {
    var dangerous := LoadPatterns(dangerousFile, DefaultDangerousPatterns);
    var safe := LoadPatterns(safeFile, DefaultSafePatterns);
    verdict := ScanCommand(cmd, safe, dangerous, matches);
  }

  /** A command that matches any safe pattern is judged safe, whatever dangerous pattern it
      also matches. */
  lemma SafePrecedence(cmd: string, safe: seq<string>, dangerous: seq<string>,
                       matches: (string, string) -> bool, i: nat)
    requires i < |safe| && matches(safe[i], cmd)
    ensures Classify(cmd, safe, dangerous, matches) == Assessment(true, KnownSafe)
  {
  }

  /** With no safe match, a dangerous match makes the command unsafe, and the reason names the
      first matching dangerous pattern in list order. */
  lemma DangerousNamesFirstMatch(cmd: string, safe: seq<string>, dangerous: seq<string>,
                                 matches: (string, string) -> bool, j: nat)
    requires forall k :: 0 <= k < |safe| ==> !matches(safe[k], cmd)
    requires j < |dangerous| && matches(dangerous[j], cmd)
    requires forall k :: 0 <= k < j ==> !matches(dangerous[k], cmd)
    ensures Classify(cmd, safe, dangerous, matches) == Assessment(false, DangerousPattern(dangerous[j]))
  {
    var r := FirstMatch(dangerous, cmd, matches);
    assert r.Some?;
    assert !(r.value < j) && !(r.value > j);
  }

  /** A command that matches no pattern is unsafe exactly when one of the three heuristics
      fires. */
  lemma UnmatchedFallsToHeuristics(cmd: string, safe: seq<string>, dangerous: seq<string>,
                                   matches: (string, string) -> bool)
    requires forall k :: 0 <= k < |safe| ==> !matches(safe[k], cmd)
    requires forall k :: 0 <= k < |dangerous| ==> !matches(dangerous[k], cmd)
    ensures !Classify(cmd, safe, dangerous, matches).isSafe
        <==> PipesToShellHeuristic(cmd) || RedirectsToSystemHeuristic(cmd) || DownloadHeuristic(cmd)
  {
  }

  /** The whole verdict in one statement: safe exactly when a safe pattern matches, or when no
      dangerous pattern matches and no heuristic fires. In particular a command that matches
      nothing at all is judged safe. */
  lemma SafeVerdictIff(cmd: string, safe: seq<string>, dangerous: seq<string>,
                       matches: (string, string) -> bool)
    ensures Classify(cmd, safe, dangerous, matches).isSafe
        <==> (exists i :: 0 <= i < |safe| && matches(safe[i], cmd))
             || ((forall k :: 0 <= k < |dangerous| ==> !matches(dangerous[k], cmd))
                 && !PipesToShellHeuristic(cmd) && !RedirectsToSystemHeuristic(cmd) && !DownloadHeuristic(cmd))
  {
  }

  /** "sh" occurs in "bash" and in "powershell", so the pipe heuristic fires on any piped command
      whose lower-cased text contains "sh", "cmd", "iex" or "invoke-expression". */
  lemma PipeHeuristicShortlist(cmd: string)
    ensures PipesToShellHeuristic(cmd)
        <==> '|' in cmd && (Contains(Lower(cmd), "sh") || Contains(Lower(cmd), "cmd")
                            || Contains(Lower(cmd), "iex") || Contains(Lower(cmd), "invoke-expression"))
  {
    var l := Lower(cmd);
    assert StartsWith("bash"[2..], "sh") && StartsWith("powershell"[5..], "sh");
    assert StartsWith("sh"[0..], "sh") && StartsWith("cmd"[0..], "cmd") && StartsWith("iex"[0..], "iex");
    assert StartsWith("invoke-expression"[0..], "invoke-expression");
    if Contains(l, "bash") { ContainsTransitive(l, "bash", "sh"); }
    if Contains(l, "powershell") { ContainsTransitive(l, "powershell", "sh"); }
    if '|' in cmd && Contains(l, "sh") { assert "sh" in Shells; }
    if '|' in cmd && Contains(l, "cmd") { assert "cmd" in Shells; }
    if '|' in cmd && Contains(l, "iex") { assert "iex" in Shells; }
    if '|' in cmd && Contains(l, "invoke-expression") { assert "invoke-expression" in Shells; }
  }

  /** The heuristics look at the lower-cased command and at '|' and '>', which have no case, so
      the letter case of a command never changes whether they fire. */
  lemma HeuristicsIgnoreCase(cmd: string)
    ensures PipesToShellHeuristic(Lower(cmd)) == PipesToShellHeuristic(cmd)
    ensures RedirectsToSystemHeuristic(Lower(cmd)) == RedirectsToSystemHeuristic(cmd)
    ensures DownloadHeuristic(Lower(cmd)) == DownloadHeuristic(cmd)
  {
    LowerIdempotent(cmd);
    LowerKeepsSymbol(cmd, '|');
    LowerKeepsSymbol(cmd, '>');
  }

  /** An existing but empty pattern file leaves only the heuristics: with both lists empty,
      "rm -rf /" is judged safe. */
  lemma EmptyPatternFilesAcceptRmRf(matches: (string, string) -> bool)
    ensures LoadPatterns(Some(""), DefaultDangerousPatterns) == []
    ensures Classify("rm -rf /", [], [], matches) == Assessment(true, NothingDangerous)
  {
    var cmd := "rm -rf /";
    var l := Lower(cmd);
    assert l == "rm -rf /";
    assert '|' !in cmd && '>' !in cmd;
    assert l[0] == 'r';
    forall tool | tool in DownloadTools ensures !StartsWith(l, tool) {
      assert tool[0] != 'r';
      if |tool| <= |l| { assert l[..|tool|][0] == l[0]; }
    }
  }
}
