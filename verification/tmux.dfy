/** The session and window operations of src/lib/tmux/tmux.ts, run against
    an abstract tmux server: an ordered list of sessions, each holding an
    ordered list of window names. Every operation issues its commands
    through `ExecTmux`, records each issued command line, and returns a
    three-way result: success with data, an `internal` precondition failure
    (nothing mutating was issued), or the `exec`/`unknown` failure of a
    command that ran.

    Faults: a command line can be made to throw a given value instead of
    reaching the server (tmux missing, a crash, a race with the user). The
    same line always behaves the same way within one model run. */
module Tmux {
  import opened JsStrings
  import opened Outcomes
  import opened ExecTmux

  // ---------------------------------------------------------------------
  // Shell quoting
  // ---------------------------------------------------------------------

  const Shell := "zsh"

  /** Sources the node version manager before an npm invocation. */
  const NvmPrefix := "export NVM_DIR=\"$HOME/.nvm\"; [ -s \"$NVM_DIR/nvm.sh\" ] && \\. \"$NVM_DIR/nvm.sh\"; nvm use; "

  /** Falls through to an interactive shell once the payload exits. */
  const KeepOpenSuffix := " ; exec " + Shell

  /** Every `'` replaced by `'\''` (close quote, escaped quote, reopen). */
  function EscapeQuotes(arg: string): (r: string)
    ensures |r| >= |arg|
    decreases |arg|
  {
    if |arg| == 0 then ""
    else (if arg[0] == '\'' then "'\\''" else [arg[0]]) + EscapeQuotes(arg[1..])
  }

  /** `escapeShellArg`: the argument inside single quotes, with its own
      single quotes escaped. */
  function EscapeShellArg(arg: string): (r: string)
    ensures StartsWith(r, "'") && EndsWith(r, "'")
    ensures QuoteRemoval(r, false) == Some(arg)
  {
    EscapeRound(arg);
    assert ("'" + EscapeQuotes(arg) + "'")[1..] == EscapeQuotes(arg) + "'";
    "'" + EscapeQuotes(arg) + "'"
  }

  function Prepend(c: char, o: Option<string>): Option<string> {
    match o
    case Some(s) => Some([c] + s)
    case None => None
  }

  /** Quote removal for one shell word under section 2.2 (Quoting) of the
      POSIX.1-2017 Shell Command Language: outside quotes a backslash keeps
      the next character literally (backslash-newline is a line
      continuation and disappears) and `'` opens a single-quoted string;
      inside one, every character is literal up to the closing `'`. An
      unterminated quote or a trailing lone backslash gives `None`. */
  function QuoteRemoval(s: string, inQuote: bool): Option<string>
    decreases |s|
  {
    if |s| == 0 then (if inQuote then None else Some(""))
    else if inQuote then
      if s[0] == '\'' then QuoteRemoval(s[1..], false) else Prepend(s[0], QuoteRemoval(s[1..], true))
    else if s[0] == '\'' then QuoteRemoval(s[1..], true)
    else if s[0] == '\\' then
      if |s| == 1 then None
      else if s[1] == '\n' then QuoteRemoval(s[2..], false)
      else Prepend(s[1], QuoteRemoval(s[2..], false))
    else Prepend(s[0], QuoteRemoval(s[1..], false))
  }

  /** Inside an opened quote, the escaped argument followed by the closing
      quote reads back as the argument. */
  lemma {:induction false} EscapeRound(arg: string)
    ensures QuoteRemoval(EscapeQuotes(arg) + "'", true) == Some(arg)
    decreases |arg|
  {
    if |arg| == 0 {
      assert EscapeQuotes(arg) + "'" == "'";
    } else {
      var tail := EscapeQuotes(arg[1..]) + "'";
      EscapeRound(arg[1..]);
      if arg[0] == '\'' {
        var s := "'\\''" + tail;
        assert EscapeQuotes(arg) + "'" == s;
        var s1 := s[1..];
        assert s1 == "\\''" + tail;
        assert s1[0] == '\\' && s1[1] == '\'';
        assert s1[2..] == "'" + tail;
        assert ("'" + tail)[1..] == tail;
        assert QuoteRemoval("'" + tail, false) == QuoteRemoval(tail, true);
        assert QuoteRemoval(s1, false) == Prepend('\'', QuoteRemoval(s1[2..], false));
        assert QuoteRemoval(s, true) == QuoteRemoval(s1, false);
      } else {
        var s := [arg[0]] + tail;
        assert EscapeQuotes(arg) + "'" == s;
        assert s[1..] == tail;
      }
      assert arg == [arg[0]] + arg[1..];
    }
  }

  /** The command a window runs, before quoting: the nvm prefix when the
      command contains `npm `, then the command, then the keep-open suffix
      when asked for. */
  function ShellPayload(command: string, keepOpen: bool): string {
    (if Contains(command, "npm ") then NvmPrefix else "") + command
    + (if keepOpen then KeepOpenSuffix else "")
  }

  /** `wrapShellCommand(command, keepOpen = true)`: the shell reads the
      quoted word back as exactly the payload. */
  function WrapShellCommand(command: string, keepOpen: bool := true): (r: string)
    ensures QuoteRemoval(r, false) == Some(ShellPayload(command, keepOpen))
  {
    EscapeShellArg(ShellPayload(command, keepOpen))
  }

  /** Without `npm ` and without keep-open the payload is the bare command;
      with keep-open it ends in `; exec zsh`; with `npm ` it starts with the
      nvm prefix. */
  lemma WrapShellCommandShape(command: string, keepOpen: bool)
    ensures Contains(command, "npm ") ==> StartsWith(ShellPayload(command, keepOpen), NvmPrefix)
    ensures !Contains(command, "npm ") && !keepOpen ==> ShellPayload(command, keepOpen) == command
    ensures keepOpen ==> EndsWith(ShellPayload(command, keepOpen), " ; exec zsh")
    ensures !Contains(command, "npm ") && keepOpen ==> ShellPayload(command, keepOpen) == command + " ; exec zsh"
  {
    var pre := if Contains(command, "npm ") then NvmPrefix else "";
    var suf := if keepOpen then KeepOpenSuffix else "";
    assert ShellPayload(command, keepOpen) == pre + (command + suf);
    assert KeepOpenSuffix == " ; exec zsh";
    PrefixAndSuffix(pre, command, suf);
  }

  lemma PrefixAndSuffix(a: string, b: string, c: string)
    ensures StartsWith(a + (b + c), a) && EndsWith(a + (b + c), c)
    ensures a == "" && c == "" ==> a + (b + c) == b
    ensures a == "" ==> a + (b + c) == b + c
  {
    var s := a + (b + c);
    assert s[..|a|] == a;
    assert s[|s| - |c|..] == c;
  }

  // ---------------------------------------------------------------------
  // The abstract server
  // ---------------------------------------------------------------------

  datatype Session = Session(name: string, windows: seq<string>)

  type Server = seq<Session>

  /** The double-quote character. */
  const DoubleQuote: char := 34 as char

  /** A character that keeps a name one word of the `sh` command line it is
      put into unquoted, and that tmux does not read as a target separator
      (`:` between session and window, `.` before a pane). */
  predicate ShellWordChar(c: char) {
    && !IsWhitespace(c)
    && c != '|' && c != '&' && c != ';' && c != '<' && c != '>' && c != '(' && c != ')'
    && c != '$' && c != '`' && c != '\\' && c != DoubleQuote && c != '\'' && c != '*' && c != '?'
    && c != '[' && c != ']' && c != '#' && c != '~' && c != ':' && c != '.'
  }

  /** A name that reaches tmux as it is written: the lines montra builds put
      session and window names in unquoted, so only a non-empty single shell
      word survives the shell intact. It is also listed on a line of its own
      and left alone by `trim`. It is also a name tmux resolves to itself in
      a `session:window` target (`TargetName`). */
  predicate WellFormedName(n: string) {
    |n| > 0 && ShellWord(n) && TargetName(n)
  }

  /** A non-empty name that tmux's target lookup reaches only by exact
      match: it does not start with a character tmux reads as a window id
      (`@`), a pane id (`%`), a special token (`!`, `^`, `+`, `-`, `{`) or an
      exact-match marker (`=`), and it is not all digits (a window index). */
  predicate TargetName(n: string) {
    && |n| > 0
    && n[0] != '@' && n[0] != '%' && n[0] != '!' && n[0] != '^'
    && n[0] != '+' && n[0] != '-' && n[0] != '{' && n[0] != '='
    && exists i :: 0 <= i < |n| && !('0' <= n[i] <= '9')
  }

  /** Every character of `w` is a `ShellWordChar`. */
  predicate ShellWord(w: string)
    decreases |w|
  {
    |w| == 0 || (ShellWordChar(w[0]) && ShellWord(w[1..]))
  }

  lemma {:induction false} ShellWordChars(w: string)
    requires ShellWord(w)
    ensures forall i :: 0 <= i < |w| ==> ShellWordChar(w[i])
    decreases |w|
  {
    if |w| > 0 {
      ShellWordChars(w[1..]);
      forall i | 1 <= i < |w| ensures ShellWordChar(w[i]) {
        assert w[i] == w[1..][i - 1];
      }
    }
  }

  function SessionNames(server: Server): (r: seq<string>)
    ensures |r| == |server|
    ensures forall i :: 0 <= i < |server| ==> r[i] == server[i].name
  {
    seq(|server|, i requires 0 <= i < |server| => server[i].name)
  }

  predicate HasSession(server: Server, name: string) {
    name in SessionNames(server)
  }

  function SessionIndex(server: Server, name: string): (i: nat)
    requires HasSession(server, name)
    ensures i < |server| && server[i].name == name
    ensures forall j :: 0 <= j < i ==> server[j].name != name
    decreases |server|
  {
    if server[0].name == name then 0
    else
      SessionInTail(server, name);
      1 + SessionIndex(server[1..], name)
  }

  /** A session that is not the first is among the rest. */
  lemma SessionInTail(server: Server, name: string)
    requires HasSession(server, name) && server[0].name != name
    ensures HasSession(server[1..], name)
  {
    var k :| 0 <= k < |server| && SessionNames(server)[k] == name;
    assert SessionNames(server[1..])[k - 1] == name;
  }

  function WindowsOf(server: Server, name: string): seq<string>
    requires HasSession(server, name)
  {
    server[SessionIndex(server, name)].windows
  }

  predicate UniqueNames(names: seq<string>) {
    forall i, j :: 0 <= i < j < |names| ==> names[i] != names[j]
  }

  /** The invariants montra's operations keep on a real tmux server:
      session names are distinct, every session has at least one window,
      window names are distinct within their session, and every name is
      well formed. */
  predicate ValidServer(server: Server) {
    && UniqueNames(SessionNames(server))
    && forall i :: 0 <= i < |server| ==>
         && WellFormedName(server[i].name)
         && |server[i].windows| >= 1
         && UniqueNames(server[i].windows)
         && forall k :: 0 <= k < |server[i].windows| ==> WellFormedName(server[i].windows[k])
  }

  /** What `-F '#{…_name}'` prints: one name per line. */
  function Listing(names: seq<string>): string
    decreases |names|
  {
    if |names| == 0 then "" else names[0] + "\n" + Listing(names[1..])
  }

  /** `stdout.trim().split('\n').filter(Boolean)`. */
  function ParseListing(stdout: string): seq<string> {
    NonEmpty(Split(Trim(stdout), '\n'))
  }

  lemma {:induction false} ListingIsJoin(names: seq<string>)
    requires |names| >= 1
    ensures Listing(names) == Join(names, "\n") + "\n"
    decreases |names|
  {
    if |names| > 1 {
      ListingIsJoin(names[1..]);
    }
  }

  lemma {:induction false} JoinEnds(names: seq<string>, sep: string)
    requires |names| >= 1
    requires forall i :: 0 <= i < |names| ==> |names[i]| > 0
    ensures |Join(names, sep)| > 0
    ensures Join(names, sep)[0] == names[0][0]
    ensures Join(names, sep)[|Join(names, sep)| - 1] == names[|names| - 1][|names[|names| - 1]| - 1]
    decreases |names|
  {
    if |names| > 1 {
      JoinEnds(names[1..], sep);
    }
  }

  /** A line with no whitespace at either end, followed by its newline,
      trims to the line. */
  lemma TrimLine(j: string)
    requires |j| > 0 && !IsWhitespace(j[0]) && !IsWhitespace(j[|j| - 1])
    ensures Trim(j + "\n") == j
  {
    assert TrimStart(j + "\n") == j + "\n";
    assert (j + "\n")[..|j + "\n"| - 1] == j;
    assert TrimEnd(j + "\n") == TrimEnd(j);
    TrimOfTrimmed(j);
  }

  /** A well-formed name sits on one line and has no whitespace at its
      ends. */
  lemma WellFormedNameIsLine(n: string)
    requires WellFormedName(n)
    ensures |n| > 0 && '\n' !in n && !IsWhitespace(n[0]) && !IsWhitespace(n[|n| - 1])
  {
    ShellWordChars(n);
    assert forall i :: 0 <= i < |n| ==> n[i] != '\n';
  }

  /** Well-formed names are non-empty lines, and so are the first and the
      last of them at their ends. */
  lemma NamesAreLines(names: seq<string>)
    requires |names| > 0
    requires forall i :: 0 <= i < |names| ==> WellFormedName(names[i])
    ensures forall i :: 0 <= i < |names| ==> |names[i]| > 0 && '\n' !in names[i]
    ensures !IsWhitespace(names[0][0])
    ensures !IsWhitespace(names[|names| - 1][|names[|names| - 1]| - 1])
  {
    forall i | 0 <= i < |names|
      ensures |names[i]| > 0 && '\n' !in names[i]
    {
      WellFormedNameIsLine(names[i]);
    }
    WellFormedNameIsLine(names[0]);
    WellFormedNameIsLine(names[|names| - 1]);
  }

  /** The listing of well-formed names trims to their join. */
  lemma JoinedNamesTrimmed(names: seq<string>)
    requires |names| > 0
    requires forall i :: 0 <= i < |names| ==> |names[i]| > 0
    requires !IsWhitespace(names[0][0])
    requires !IsWhitespace(names[|names| - 1][|names[|names| - 1]| - 1])
    ensures Trim(Join(names, "\n") + "\n") == Join(names, "\n")
  {
    JoinEnds(names, "\n");
    TrimLine(Join(names, "\n"));
  }

  /** Parsing a listing gives back the listed names, when they are well
      formed. */
  lemma ListingRoundTrip(names: seq<string>)
    requires forall i :: 0 <= i < |names| ==> WellFormedName(names[i])
    ensures ParseListing(Listing(names)) == names
  {
    if |names| == 0 {
      assert Trim("") == "";
      assert Split("", '\n') == [""];
    } else {
      NamesAreLines(names);
      ListingIsJoin(names);
      JoinedNamesTrimmed(names);
      SplitJoin(names, '\n');
      NonEmptyOfNonEmpty(names);
    }
  }

  lemma SessionListingOfValid(server: Server)
    ensures ValidServer(server) ==> ParseListing(Listing(SessionNames(server))) == SessionNames(server)
  {
    if ValidServer(server) {
      ListingRoundTrip(SessionNames(server));
    }
  }

  lemma WindowListingOfValid(server: Server, session: string)
    ensures ValidServer(server) && HasSession(server, session) ==>
      ParseListing(Listing(WindowsOf(server, session))) == WindowsOf(server, session)
  {
    if ValidServer(server) && HasSession(server, session) {
      var i := SessionIndex(server, session);
      ListingRoundTrip(server[i].windows);
    }
  }

  /** The commands montra issues. */
  datatype Invocation =
    | ListSessionsCmd
    | ListWindowsCmd(session: string)
    | NewSessionCmd(session: string, firstWindow: string, dir: string, shellArgs: seq<string>)
    | NewWindowCmd(session: string, window: string, dir: string, shellArgs: seq<string>)
    | KillWindowCmd(session: string, window: string)
    | KillSessionCmd(session: string)

  /** The command line each invocation becomes, built from the table. */
  function Render(inv: Invocation): (cmd: string)
    ensures PassesGuard(cmd)
  {
    match inv
    case ListSessionsCmd =>
      Built("list-sessions", [("-F", Some("'#{session_name}'"))], [], [])
    case ListWindowsCmd(s) =>
      Built("list-windows", [("-F", Some("'#{window_name}'")), ("-t", Some(s))], [], [])
    case NewSessionCmd(s, w, dir, args) =>
      Built("new-session", [("-s", Some(s)), ("-n", Some(w)), ("-c", Some(dir))], ["-d"], args)
    case NewWindowCmd(s, w, dir, args) =>
      Built("new-window", [("-t", Some(s)), ("-n", Some(w)), ("-c", Some(dir))], ["-d"], args)
    case KillWindowCmd(s, w) =>
      Built("kill-window", [("-t", Some(s + ":" + w))], [], [])
    case KillSessionCmd(s) =>
      Built("kill-session", [("-t", Some(s))], [], [])
  }

  function Built(command: string, options: seq<OptionEntry>, flags: seq<string>,
                 args: seq<string>): (cmd: string)
    requires ValidInvocation(command, options, flags)
    ensures PassesGuard(cmd)
  {
    BuiltCommandPassesGuard(command, options, flags, args);
    BuildTmuxCommand(command, options, flags, args)
  }

  /** The value tmux throws when a command exits with status 1 (no server,
      no such session, duplicate session, …). */
  const ExitOne := Thrown(true, true, true, NumCode(1), "Command failed")

  function AddWindow(server: Server, name: string, window: string): (r: Server)
    requires HasSession(server, name)
  {
    var i := SessionIndex(server, name);
    server[i := Session(name, server[i].windows + [window])]
  }

  /** Drops the first occurrence of `x`; what remains is in order, and a
      list of distinct names loses `x` altogether. */
  function RemoveFirst(names: seq<string>, x: string): (r: seq<string>)
    ensures forall y :: y in r ==> y in names
    ensures x in names ==> |r| == |names| - 1
    ensures x !in names ==> r == names
    ensures UniqueNames(names) ==> UniqueNames(r) && x !in r
    decreases |names|
  {
    if |names| == 0 then []
    else if names[0] == x then names[1..]
    else
      var rest := RemoveFirst(names[1..], x);
      assert UniqueNames(names) ==> names[0] !in names[1..];
      [names[0]] + rest
  }

  function RemoveSession(server: Server, name: string): (r: Server)
    requires HasSession(server, name)
  {
    var i := SessionIndex(server, name);
    server[..i] + server[i + 1..]
  }

  /** Kills one window; a session whose last window goes disappears. */
  function RemoveWindow(server: Server, name: string, window: string): (r: Server)
    requires HasSession(server, name)
  {
    var i := SessionIndex(server, name);
    var rest := RemoveFirst(server[i].windows, window);
    if |rest| == 0 then server[..i] + server[i + 1..]
    else server[i := Session(name, rest)]
  }

  /** The names in `names` that start with `s`, in order. */
  function NamesStartingWith(names: seq<string>, s: string): (r: seq<string>)
    ensures forall n :: n in r <==> n in names && StartsWith(n, s)
    ensures UniqueNames(names) ==> UniqueNames(r)
    decreases |names|
  {
    if |names| == 0 then []
    else
      var rest := NamesStartingWith(names[1..], s);
      assert forall n :: n in names <==> n == names[0] || n in names[1..];
      assert UniqueNames(names) ==> names[0] !in names[1..] && UniqueNames(names[1..]);
      (if StartsWith(names[0], s) then [names[0]] else []) + rest
  }

  /** The session tmux reaches for a `-t` target-session: the session of
      exactly that name, otherwise the one session whose name starts with
      it, and none when no name or more than one starts with it. tmux then
      tries the target as an `fnmatch` pattern; a well-formed name holds no
      pattern character, so that last try matches only the exact name,
      which has already failed. */
  function TargetSession(server: Server, s: string): (r: Option<string>)
    ensures r.Some? ==> HasSession(server, r.value) && StartsWith(r.value, s)
    ensures HasSession(server, s) ==> r == Some(s)
    ensures !HasSession(server, s) ==>
      (r.Some? <==> |NamesStartingWith(SessionNames(server), s)| == 1)
  {
    if HasSession(server, s) then Some(s)
    else
      var m := NamesStartingWith(SessionNames(server), s);
      if |m| == 1 then
        assert m[0] in m;
        Some(m[0])
      else None
  }

  /** How the tmux server itself answers each command, for names that
      reach it as written (`WellFormedName`): what tmux does with a line the
      shell splits differently is not modelled, and the contracts claim
      server effects only for well-formed names. A session target reaches
      its session as `TargetSession` does. The target of `new-window` is
      taken to be the session of that name: tmux's first try, a window of
      its current session, is not modelled, for the model has no current
      session. */
  function Perform(server: Server, inv: Invocation): (RunOutcome, Server) {
    match inv
    case ListSessionsCmd =>
      if |server| == 0 then (Threw(ExitOne), server)
      else (Completed(Listing(SessionNames(server)), ""), server)
    case ListWindowsCmd(s) =>
      (match TargetSession(server, s)
       case None => (Threw(ExitOne), server)
       case Some(n) => (Completed(Listing(WindowsOf(server, n)), ""), server))
    case NewSessionCmd(s, w, _, _) =>
      if HasSession(server, s) then (Threw(ExitOne), server)
      else (Completed("", ""), server + [Session(s, [w])])
    case NewWindowCmd(s, w, _, _) =>
      if !HasSession(server, s) then (Threw(ExitOne), server)
      else (Completed("", ""), AddWindow(server, s, w))
    case KillWindowCmd(s, w) =>
      if !HasSession(server, s) || w !in WindowsOf(server, s) then (Threw(ExitOne), server)
      else (Completed("", ""), RemoveWindow(server, s, w))
    case KillSessionCmd(s) =>
      (match TargetSession(server, s)
       case None => (Threw(ExitOne), server)
       case Some(n) => (Completed("", ""), RemoveSession(server, n)))
  }

  /** Which invocations throw instead of reaching the server, and what
      they throw. */
  type Faults = Invocation -> Option<Thrown>

  /** The server and every invocation issued so far, in order. */
  datatype TmuxState = TmuxState(server: Server, issued: seq<Invocation>)

  /** The command lines issued so far. */
  function IssuedLines(st: TmuxState): (r: seq<string>)
    ensures |r| == |st.issued|
    ensures forall i :: 0 <= i < |r| ==> r[i] == Render(st.issued[i]) && PassesGuard(r[i])
  {
    seq(|st.issued|, i requires 0 <= i < |st.issued| => Render(st.issued[i]))
  }

  /** Issues one command through `execTmux`: a faulted invocation throws
      its value and leaves the server alone, any other is performed by the
      server. Every rendered line passes the guard, so the outcome is
      always the classification of what ran. */
  function Issue(st: TmuxState, faults: Faults, inv: Invocation): (r: (ExecTmuxResult, TmuxState))
    ensures r.1.issued == st.issued + [inv]
    ensures faults(inv).Some? ==>
      r.0 == TmuxFailed(FaultError(faults(inv).value)) && r.1.server == st.server
    ensures faults(inv).None? ==> r.1.server == Perform(st.server, inv).1
    ensures faults(inv).None? && Perform(st.server, inv).0.Completed? ==>
      r.0 == TmuxRan(Perform(st.server, inv).0.stdout, Perform(st.server, inv).0.stderr)
    ensures faults(inv).None? && Perform(st.server, inv).0.Threw? ==>
      r.0 == TmuxFailed(FaultError(Perform(st.server, inv).0.thrown))
  {
    var (ran, server') := Answer(st.server, faults, inv);
    (ClassifyRun(ran), TmuxState(server', st.issued + [inv]))
  }

  /** What the server, or the fault in its place, answers to one
      invocation. */
  function Answer(server: Server, faults: Faults, inv: Invocation): (RunOutcome, Server) {
    if faults(inv).Some? then (Threw(faults(inv).value), server) else Perform(server, inv)
  }

  /** `Issue` reports exactly what `execTmux` reports for the rendered line
      and the server's answer. */
  lemma IssueIsExecTmux(st: TmuxState, faults: Faults, inv: Invocation)
    ensures Issue(st, faults, inv).0 == ExecTmux.ExecTmux(Render(inv), Answer(st.server, faults, inv).0)
  {
  }

  // ---------------------------------------------------------------------
  // Operations
  // ---------------------------------------------------------------------

  datatype TmuxResult<T> = Ok(data: T) | Err(error: TmuxError)

  datatype Step<T> = Step(result: TmuxResult<T>, state: TmuxState)

  /** The error a fault produces once `execTmux` has classified it. */
  function FaultError(t: Thrown): TmuxError {
    if IsExecException(t) then TmuxExec(t.code, t.message) else TmuxUnknown(t.message)
  }

  /** The status-1 `exec` failure that listings read as "none". */
  predicate IsExitOne(e: TmuxError) {
    e.TmuxExec? && e.code == NumCode(1)
  }

  function ParseListResult(r: ExecTmuxResult): TmuxResult<seq<string>> {
    match r
    case TmuxRan(out, _) => Ok(ParseListing(out))
    case TmuxFailed(e) => if IsExitOne(e) then Ok([]) else Err(e)
  }

  /** `listSessions`. On a well-formed server whose listing is not faulted
      the result is exactly its session names, an empty server included
      (tmux exits with status 1 and that reads as no sessions). A faulted
      listing gives no sessions for a status-1 `exec` error and the error
      otherwise. The server is never changed. */
  function ListSessions(st: TmuxState, faults: Faults): (r: Step<seq<string>>)
    ensures r.state == TmuxState(st.server, st.issued + [ListSessionsCmd])
    ensures ValidServer(st.server) && faults(ListSessionsCmd).None? ==>
      r.result == Ok(SessionNames(st.server))
    ensures faults(ListSessionsCmd).Some? ==>
      var e := FaultError(faults(ListSessionsCmd).value);
      r.result == if IsExitOne(e) then Ok([]) else Err(e)
  {
    var (ran, st') := Issue(st, faults, ListSessionsCmd);
    ListSessionsUnfaulted(st, faults);
    Step(ParseListResult(ran), st')
  }

  /** An unfaulted listing of a well-formed server reads back as its
      session names; an empty server exits with status 1, read as none. */
  lemma ListSessionsUnfaulted(st: TmuxState, faults: Faults)
    ensures ValidServer(st.server) && faults(ListSessionsCmd).None? ==>
      ParseListResult(Issue(st, faults, ListSessionsCmd).0) == Ok(SessionNames(st.server))
  {
    if ValidServer(st.server) && faults(ListSessionsCmd).None? {
      var ran := Issue(st, faults, ListSessionsCmd).0;
      if |st.server| == 0 {
        assert ran == TmuxFailed(FaultError(ExitOne));
        assert SessionNames(st.server) == [];
      } else {
        assert ran == TmuxRan(Listing(SessionNames(st.server)), "");
        SessionListingOfValid(st.server);
      }
    }
  }

  /** `sessionExists`: false whenever the listing fails, otherwise
      membership; on a well-formed, unfaulted server that is membership in
      the server itself. */
  function SessionExists(st: TmuxState, faults: Faults, name: string): (r: (bool, TmuxState))
    ensures r.1 == TmuxState(st.server, st.issued + [ListSessionsCmd])
    ensures faults(ListSessionsCmd).Some? ==> !r.0
    ensures ValidServer(st.server) && faults(ListSessionsCmd).None? ==>
      (r.0 <==> HasSession(st.server, name))
  {
    var s := ListSessions(st, faults);
    (s.result.Ok? && name in s.result.data, s.state)
  }

  /** `ensureSessionExists`: an internal error exactly when the session
      does not exist. */
  function EnsureSessionExists(st: TmuxState, faults: Faults, name: string): (r: Step<()>)
    ensures r.state == SessionExists(st, faults, name).1
    ensures r.result.Err? <==> !SessionExists(st, faults, name).0
    ensures r.result.Err? ==> r.result.error == TmuxInternal("Session " + name + " does not exist")
  {
    var (exists_, st') := SessionExists(st, faults, name);
    if !exists_ then Step(Err(TmuxInternal("Session " + name + " does not exist")), st')
    else Step(Ok(()), st')
  }

  /** `listWindows`. When the session is absent it fails with `internal`
      before any `list-windows` is issued. On a well-formed server with
      neither listing faulted it gives exactly the session's windows. */
  function ListWindows(st: TmuxState, faults: Faults, session: string): (r: Step<seq<string>>)
    ensures r.state.server == st.server
    ensures !SessionExists(st, faults, session).0 ==>
      r.result.Err? && r.result.error.TmuxInternal? &&
      r.state.issued == st.issued + [ListSessionsCmd]
    ensures SessionExists(st, faults, session).0 ==>
      r.state.issued == st.issued + [ListSessionsCmd, ListWindowsCmd(session)]
    ensures SessionExists(st, faults, session).0 && faults(ListWindowsCmd(session)).Some? ==>
      var e := FaultError(faults(ListWindowsCmd(session)).value);
      r.result == if IsExitOne(e) then Ok([]) else Err(e)
    ensures ValidServer(st.server) && faults(ListSessionsCmd).None? &&
            faults(ListWindowsCmd(session)).None? ==>
      if HasSession(st.server, session) then r.result == Ok(WindowsOf(st.server, session))
      else r.result.Err? && r.result.error.TmuxInternal?
  {
    var check := EnsureSessionExists(st, faults, session);
    if check.result.Err? then Step(Err(check.result.error), check.state)
    else
      WindowListingOfValid(st.server, session);
      QueryWindows(check.state, faults, session)
  }

  /** The `list-windows` call itself, once the session is known to exist:
      a faulted call gives no windows for a status-1 error and the error
      otherwise; an unfaulted one parses the session's listing. */
  function QueryWindows(st: TmuxState, faults: Faults, session: string): (r: Step<seq<string>>)
    ensures r.state == TmuxState(st.server, st.issued + [ListWindowsCmd(session)])
    ensures faults(ListWindowsCmd(session)).Some? ==>
      var e := FaultError(faults(ListWindowsCmd(session)).value);
      r.result == if IsExitOne(e) then Ok([]) else Err(e)
    ensures faults(ListWindowsCmd(session)).None? && HasSession(st.server, session) ==>
      r.result == Ok(ParseListing(Listing(WindowsOf(st.server, session))))
  {
    var (ran, st') := Issue(st, faults, ListWindowsCmd(session));
    Step(ParseListResult(ran), st')
  }

  /** `windowExists`: false whenever the listing fails, otherwise
      membership. */
  function WindowExists(st: TmuxState, faults: Faults, session: string, window: string): (r: (bool, TmuxState))
    ensures r.1 == ListWindows(st, faults, session).state
    ensures !SessionExists(st, faults, session).0 ==> !r.0
    ensures ValidServer(st.server) && faults(ListSessionsCmd).None? &&
            faults(ListWindowsCmd(session)).None? ==>
      (r.0 <==> HasSession(st.server, session) && window in WindowsOf(st.server, session))
  {
    var s := ListWindows(st, faults, session);
    (s.result.Ok? && window in s.result.data, s.state)
  }

  /** `ensureWindowExists`: an internal error exactly when the window does
      not exist. */
  function EnsureWindowExists(st: TmuxState, faults: Faults, session: string, window: string): (r: Step<()>)
    ensures r.state == WindowExists(st, faults, session, window).1
    ensures r.result.Err? <==> !WindowExists(st, faults, session, window).0
    ensures r.result.Err? ==> r.result.error.TmuxInternal?
  {
    var (exists_, st') := WindowExists(st, faults, session, window);
    if !exists_ then
      Step(Err(TmuxInternal("Window " + window + " does not exist in session " + session)), st')
    else Step(Ok(()), st')
  }

  /** The positional argument of a create: the wrapped command when there
      is a non-empty one (an empty string is falsy), nothing otherwise. */
  function ShellArgs(command: Option<string>, keepOpen: bool): seq<string> {
    if command.Some? && command.value != "" then [WrapShellCommand(command.value, keepOpen)] else []
  }

  /** `newSession`. An existing session gives an internal error and
      nothing but the listing is issued. Otherwise one `new-session` is
      issued; on a well-formed server without faults, and for a session and
      window name that are single shell words, it succeeds and the server
      gains exactly the new session, with that one window, at the end. */
  function NewSession(st: TmuxState, faults: Faults, session: string, window: string,
                      entrypoint: string, command: Option<string>,
                      keepOpen: bool := true): (r: Step<bool>)
    ensures SessionExists(st, faults, session).0 ==>
      r.result == Err(TmuxInternal("Session " + session + " already exist")) &&
      r.state == TmuxState(st.server, st.issued + [ListSessionsCmd])
    ensures !SessionExists(st, faults, session).0 ==>
      r.state.issued == st.issued + [ListSessionsCmd, NewSessionCmd(session, window, entrypoint, ShellArgs(command, keepOpen))]
    ensures ValidServer(st.server) && faults(ListSessionsCmd).None? &&
            faults(NewSessionCmd(session, window, entrypoint, ShellArgs(command, keepOpen))).None? &&
            !HasSession(st.server, session) && WellFormedName(session) && WellFormedName(window) ==>
      r.result == Ok(true) &&
      r.state.server == st.server + [Session(session, [window])]
  {
    var (exists_, st1) := SessionExists(st, faults, session);
    if exists_ then Step(Err(TmuxInternal("Session " + session + " already exist")), st1)
    else
      var (ran, st2) := Issue(st1, faults, NewSessionCmd(session, window, entrypoint, ShellArgs(command, keepOpen)));
      match ran
      case TmuxRan(_, _) => Step(Ok(true), st2)
      case TmuxFailed(e) => Step(Err(e), st2)
  }

  /** `killSession`: no precondition and no existence check; tmux kills
      the session the name reaches as a target, which may be one whose name
      only starts with it, and the result mirrors the kill. */
  function KillSession(st: TmuxState, faults: Faults, session: string): (r: Step<bool>)
    ensures r.state.issued == st.issued + [KillSessionCmd(session)]
    ensures faults(KillSessionCmd(session)).Some? ==>
      r.result == Err(FaultError(faults(KillSessionCmd(session)).value)) &&
      r.state.server == st.server
    ensures faults(KillSessionCmd(session)).None? && HasSession(st.server, session) ==>
      r.result == Ok(true) && r.state.server == RemoveSession(st.server, session)
    ensures faults(KillSessionCmd(session)).None? ==>
      if TargetSession(st.server, session).Some? then
        r.result == Ok(true) &&
        r.state.server == RemoveSession(st.server, TargetSession(st.server, session).value)
      else r.result == Err(TmuxExec(NumCode(1), ExitOne.message)) && r.state.server == st.server
  {
    var (ran, st') := Issue(st, faults, KillSessionCmd(session));
    match ran
    case TmuxRan(_, _) => Step(Ok(true), st')
    case TmuxFailed(e) => Step(Err(e), st')
  }

  /** On a server with distinct session names, killing a name that no
      session has exactly succeeds, and removes session `n`, exactly when
      `n` is the only session whose name starts with it: tmux falls back to
      a unique prefix, and refuses an ambiguous one. */
  lemma {:induction false} KillSessionByPrefix(st: TmuxState, faults: Faults, session: string, n: string)
    requires UniqueNames(SessionNames(st.server))
    requires faults(KillSessionCmd(session)).None? && !HasSession(st.server, session)
    requires HasSession(st.server, n) && StartsWith(n, session)
    ensures (KillSession(st, faults, session).result == Ok(true) &&
             KillSession(st, faults, session).state.server == RemoveSession(st.server, n))
            <==> (forall m :: m in SessionNames(st.server) && StartsWith(m, session) ==> m == n)
  {
    var names := SessionNames(st.server);
    var matches := NamesStartingWith(names, session);
    assert n in matches;
    if forall m :: m in names && StartsWith(m, session) ==> m == n {
      AtMostOneName(matches, n);
      assert matches[0] in matches;
    } else {
      var m :| m in names && StartsWith(m, session) && m != n;
      assert m in matches;
    }
  }

  /** Distinct names that are all `n` are at most one name. */
  lemma AtMostOneName(xs: seq<string>, n: string)
    requires UniqueNames(xs)
    requires forall x :: x in xs ==> x == n
    ensures |xs| <= 1
  {
    CountAllEqual(xs, n);
    CountUnique(xs, n);
  }

  lemma {:induction false} CountAllEqual(xs: seq<string>, n: string)
    requires forall x :: x in xs ==> x == n
    ensures multiset(xs)[n] == |xs|
    decreases |xs|
  {
    if |xs| > 0 {
      assert xs == [xs[0]] + xs[1..];
      assert xs[0] in xs;
      assert forall x :: x in xs[1..] ==> x in xs;
      CountAllEqual(xs[1..], n);
    }
  }

  lemma {:induction false} CountUnique(xs: seq<string>, n: string)
    requires UniqueNames(xs)
    ensures multiset(xs)[n] <= 1
    decreases |xs|
  {
    if |xs| > 0 {
      assert xs == [xs[0]] + xs[1..];
      assert UniqueNames(xs[1..]);
      CountUnique(xs[1..], n);
      if xs[0] == n {
        assert n !in xs[1..];
      }
    }
  }

  /** `newWindow`. A missing session is checked first, an existing window
      name second; either gives an internal error before any create is
      issued. Otherwise one `new-window` is issued; `NewWindowOnValidServer`
      shows that on a well-formed server without faults it succeeds and
      appends exactly that window to that session. */
  function NewWindow(st: TmuxState, faults: Faults, session: string, window: string,
                     entrypoint: string, command: Option<string>,
                     keepOpen: bool := true): (r: Step<bool>)
    ensures !SessionExists(st, faults, session).0 ==>
      r.result == Err(TmuxInternal("Session " + session + " does not exist")) &&
      r.state == TmuxState(st.server, st.issued + [ListSessionsCmd])
    ensures SessionExists(st, faults, session).0 &&
            WindowExists(SessionExists(st, faults, session).1, faults, session, window).0 ==>
      r.result.Err? && r.result.error.TmuxInternal? &&
      r.state == TmuxState(st.server, st.issued + [ListSessionsCmd, ListSessionsCmd, ListWindowsCmd(session)])
    ensures r.state.server == st.server || r.state.server == Perform(st.server,
              NewWindowCmd(session, window, entrypoint, ShellArgs(command, keepOpen))).1
  {
    var check := EnsureSessionExists(st, faults, session);
    if check.result.Err? then Step(Err(check.result.error), check.state)
    else
      assert check.state.issued + [ListSessionsCmd, ListWindowsCmd(session)] ==
             st.issued + [ListSessionsCmd, ListSessionsCmd, ListWindowsCmd(session)];
      CreateUnlessPresent(check.state, faults, session, window,
                          NewWindowCmd(session, window, entrypoint, ShellArgs(command, keepOpen)))
  }

  /** `newWindow` once the session check passed: a window name the session
      already has is refused before any create; otherwise the create is
      issued. */
  function CreateUnlessPresent(st: TmuxState, faults: Faults, session: string, window: string,
                               inv: Invocation): (r: Step<bool>)
    ensures WindowExists(st, faults, session, window).0 ==>
      r.result.Err? && r.result.error.TmuxInternal? &&
      r.state == TmuxState(st.server, st.issued + [ListSessionsCmd, ListWindowsCmd(session)])
    ensures r.state.server == st.server || r.state.server == Perform(st.server, inv).1
  {
    var (exists_, st2) := WindowExists(st, faults, session, window);
    if exists_ then
      Step(Err(TmuxInternal("A window with the name " + window + " already exists in the session " + session)), st2)
    else
      CreateWindow(st2, faults, inv)
  }

  /** The create itself, once both checks came back clean: true when tmux
      ran it, its error otherwise. */
  function CreateWindow(st: TmuxState, faults: Faults, inv: Invocation): (r: Step<bool>)
    ensures r.state.issued == st.issued + [inv]
    ensures r.state.server == st.server || r.state.server == Perform(st.server, inv).1
    ensures faults(inv).None? && Perform(st.server, inv).0.Completed? ==>
      r.result == Ok(true) && r.state.server == Perform(st.server, inv).1
  {
    var (ran, st') := Issue(st, faults, inv);
    match ran
    case TmuxRan(_, _) => Step(Ok(true), st')
    case TmuxFailed(e) => Step(Err(e), st')
  }

  /** On a well-formed server without faults `newWindow` fails with an
      internal error and changes nothing when the session is missing or
      already has the window; otherwise, for a window name that is a single
      shell word, it appends exactly that window to that session. */
  lemma NewWindowOnValidServer(st: TmuxState, faults: Faults, session: string, window: string,
                               entrypoint: string, command: Option<string>, keepOpen: bool)
    requires ValidServer(st.server) && faults(ListSessionsCmd).None?
    requires faults(ListWindowsCmd(session)).None?
    requires faults(NewWindowCmd(session, window, entrypoint, ShellArgs(command, keepOpen))).None?
    ensures var r := NewWindow(st, faults, session, window, entrypoint, command, keepOpen);
      if !HasSession(st.server, session) || window in WindowsOf(st.server, session) then
        r.result.Err? && r.result.error.TmuxInternal? && r.state.server == st.server
      else
        WellFormedName(window) ==> r.result == Ok(true) && r.state.server == AddWindow(st.server, session, window)
  {
    if !HasSession(st.server, session) {
      assert !SessionExists(st, faults, session).0;
    } else if window in WindowsOf(st.server, session) {
      NewWindowRefusesDuplicate(st, faults, session, window, entrypoint, command, keepOpen);
    } else {
      NewWindowAppends(st, faults, session, window, entrypoint, command, keepOpen);
    }
  }

  /** On a well-formed server whose listings are answered, a window name
      the session already has is refused before any create. */
  lemma NewWindowRefusesDuplicate(st: TmuxState, faults: Faults, session: string, window: string,
                                  entrypoint: string, command: Option<string>, keepOpen: bool)
    requires ValidServer(st.server) && faults(ListSessionsCmd).None? && faults(ListWindowsCmd(session)).None?
    requires HasSession(st.server, session) && window in WindowsOf(st.server, session)
    ensures var r := NewWindow(st, faults, session, window, entrypoint, command, keepOpen);
      r.result.Err? && r.result.error.TmuxInternal? && r.state.server == st.server
  {
    var se := SessionExists(st, faults, session);
    assert se.0 && se.1.server == st.server;
    assert WindowExists(se.1, faults, session, window).0;
  }

  /** On a well-formed server without faults, a window name the session
      does not have yet is created and appended to that session. */
  lemma NewWindowAppends(st: TmuxState, faults: Faults, session: string, window: string,
                         entrypoint: string, command: Option<string>, keepOpen: bool)
    requires ValidServer(st.server) && faults(ListSessionsCmd).None? && faults(ListWindowsCmd(session)).None?
    requires faults(NewWindowCmd(session, window, entrypoint, ShellArgs(command, keepOpen))).None?
    requires HasSession(st.server, session) && window !in WindowsOf(st.server, session)
    ensures var r := NewWindow(st, faults, session, window, entrypoint, command, keepOpen);
      r.result == Ok(true) && r.state.server == AddWindow(st.server, session, window)
  {
    var se := SessionExists(st, faults, session);
    assert se.0 && se.1.server == st.server;
    var check := EnsureSessionExists(st, faults, session);
    assert check.result.Ok? && check.state == se.1;
    var we := WindowExists(se.1, faults, session, window);
    assert !we.0 && we.1.server == st.server;
    var (ran, st3) := Issue(we.1, faults, NewWindowCmd(session, window, entrypoint, ShellArgs(command, keepOpen)));
    assert ran.TmuxRan? && st3.server == AddWindow(st.server, session, window);
  }

  /** `killWindow`. An absent window gives an internal error and no
      `kill-window` is issued; otherwise `kill-window -t session:window` is
      issued. `KillWindowOnValidServer` shows that on a well-formed server
      without faults the window is killed exactly when it exists. */
  function KillWindow(st: TmuxState, faults: Faults, session: string, window: string): (r: Step<bool>)
    ensures !WindowExists(st, faults, session, window).0 ==>
      r.result.Err? && r.result.error.TmuxInternal? &&
      r.state == WindowExists(st, faults, session, window).1 &&
      r.state.server == st.server
    ensures WindowExists(st, faults, session, window).0 ==>
      r.state.issued == WindowExists(st, faults, session, window).1.issued + [KillWindowCmd(session, window)]
  {
    var check := EnsureWindowExists(st, faults, session, window);
    if check.result.Err? then Step(Err(check.result.error), check.state)
    else SendWindowKill(check.state, faults, session, window)
  }

  /** The `kill-window` call itself, once the window is known to exist:
      true when tmux ran it, its error otherwise. */
  function SendWindowKill(st: TmuxState, faults: Faults, session: string, window: string): (r: Step<bool>)
    ensures r.state.issued == st.issued + [KillWindowCmd(session, window)]
    ensures faults(KillWindowCmd(session, window)).None? && HasSession(st.server, session) &&
            window in WindowsOf(st.server, session) ==>
      r.result == Ok(true) && r.state.server == RemoveWindow(st.server, session, window)
  {
    var (ran, st') := Issue(st, faults, KillWindowCmd(session, window));
    match ran
    case TmuxRan(_, _) => Step(Ok(true), st')
    case TmuxFailed(e) => Step(Err(e), st')
  }

  /** On a well-formed server without faults `killWindow` removes the
      window exactly when the session has it, and otherwise fails with an
      internal error and changes nothing. A window of a well-formed server
      has a name that is a single shell word, so the kill line reaches tmux
      intact. */
  lemma KillWindowOnValidServer(st: TmuxState, faults: Faults, session: string, window: string)
    requires ValidServer(st.server) && faults(ListSessionsCmd).None?
    requires faults(ListWindowsCmd(session)).None? && faults(KillWindowCmd(session, window)).None?
    ensures var r := KillWindow(st, faults, session, window);
      if HasSession(st.server, session) && window in WindowsOf(st.server, session) then
        r.result == Ok(true) && r.state.server == RemoveWindow(st.server, session, window)
      else
        r.result.Err? && r.result.error.TmuxInternal? && r.state.server == st.server
  {
    var we := WindowExists(st, faults, session, window);
    assert we.1.server == st.server;
    var check := EnsureWindowExists(st, faults, session, window);
    assert check.state == we.1;
    if we.0 {
      assert check.result.Ok?;
      assert KillWindow(st, faults, session, window) == SendWindowKill(we.1, faults, session, window);
    }
  }

  // ---------------------------------------------------------------------
  // Invariants
  // ---------------------------------------------------------------------

  /** A server stays well formed when a well-formed session is appended
      whose name is new. */
  lemma AppendSessionKeepsValid(server: Server, s: Session)
    requires ValidServer(server)
    requires !HasSession(server, s.name)
    requires WellFormedName(s.name) && |s.windows| == 1 && WellFormedName(s.windows[0])
    ensures ValidServer(server + [s])
  {
    var r := server + [s];
    assert SessionNames(r) == SessionNames(server) + [s.name];
  }

  lemma ReplaceWindowsKeepsValid(server: Server, i: nat, ws: seq<string>)
    requires ValidServer(server) && i < |server|
    requires |ws| >= 1 && UniqueNames(ws)
    requires forall k :: 0 <= k < |ws| ==> WellFormedName(ws[k])
    ensures ValidServer(server[i := Session(server[i].name, ws)])
  {
    var r := server[i := Session(server[i].name, ws)];
    assert SessionNames(r) == SessionNames(server);
  }

  lemma DropSessionKeepsValid(server: Server, i: nat)
    requires ValidServer(server) && i < |server|
    ensures ValidServer(server[..i] + server[i + 1..])
  {
    var r := server[..i] + server[i + 1..];
    forall a, b | 0 <= a < b < |r| ensures SessionNames(r)[a] != SessionNames(r)[b] {
      var a' := if a < i then a else a + 1;
      var b' := if b < i then b else b + 1;
      assert r[a] == server[a'] && r[b] == server[b'];
      assert SessionNames(server)[a'] != SessionNames(server)[b'];
    }
    forall a | 0 <= a < |r| ensures r[a] in server {
      assert r[a] == server[if a < i then a else a + 1];
    }
  }

  /** `newSession` keeps the server well formed for well-formed names,
      whatever the faults: a create that montra's check lets through for an
      existing name is refused by tmux itself. */
  lemma {:induction false} NewSessionKeepsValid(st: TmuxState, faults: Faults, session: string,
      window: string, entrypoint: string, command: Option<string>, keepOpen: bool)
    requires ValidServer(st.server)
    requires WellFormedName(session) && WellFormedName(window)
    ensures ValidServer(NewSession(st, faults, session, window, entrypoint, command, keepOpen).state.server)
  {
    var inv := NewSessionCmd(session, window, entrypoint, ShellArgs(command, keepOpen));
    if !HasSession(st.server, session) {
      AppendSessionKeepsValid(st.server, Session(session, [window]));
    }
    assert faults(inv).None? ==> ValidServer(Perform(st.server, inv).1);
  }

  /** On a well-formed server whose window listing is answered, a session
      found to exist whose window check came back negative is a session of
      the server without that window. */
  lemma PassedChecksOnValid(st: TmuxState, faults: Faults, session: string, window: string)
    requires ValidServer(st.server) && faults(ListWindowsCmd(session)).None?
    requires SessionExists(st, faults, session).0
    requires !WindowExists(SessionExists(st, faults, session).1, faults, session, window).0
    ensures HasSession(st.server, session) && window !in WindowsOf(st.server, session)
  {
    assert faults(ListSessionsCmd).None?;
  }

  /** When `newWindow` changes the server, the session existed, its window
      listing was answered without the window, and exactly that window was
      appended: the create is issued only after both checks came back
      clean. */
  lemma {:induction false} NewWindowGrowsOnlyAfterChecks(st: TmuxState, faults: Faults, session: string,
      window: string, entrypoint: string, command: Option<string>, keepOpen: bool)
    requires ValidServer(st.server)
    requires faults(ListWindowsCmd(session)).None?
    ensures var r := NewWindow(st, faults, session, window, entrypoint, command, keepOpen);
      r.state.server != st.server ==>
        HasSession(st.server, session) && window !in WindowsOf(st.server, session) &&
        r.state.server == AddWindow(st.server, session, window)
  {
    var r := NewWindow(st, faults, session, window, entrypoint, command, keepOpen);
    if r.state.server != st.server {
      var se := SessionExists(st, faults, session);
      assert se.0 && !WindowExists(se.1, faults, session, window).0;
      PassedChecksOnValid(st, faults, session, window);
    }
  }

  /** `newWindow` keeps the server well formed for a well-formed window
      name, provided the window listing of that session is answered by the
      server: montra's own check is then the only guard tmux needs. */
  lemma {:induction false} NewWindowKeepsValid(st: TmuxState, faults: Faults, session: string,
      window: string, entrypoint: string, command: Option<string>, keepOpen: bool)
    requires ValidServer(st.server) && WellFormedName(window)
    requires faults(ListWindowsCmd(session)).None?
    ensures ValidServer(NewWindow(st, faults, session, window, entrypoint, command, keepOpen).state.server)
  {
    var r := NewWindow(st, faults, session, window, entrypoint, command, keepOpen);
    NewWindowGrowsOnlyAfterChecks(st, faults, session, window, entrypoint, command, keepOpen);
    if r.state.server != st.server {
      AddWindowKeepsValid(st.server, session, window);
    }
  }

  /** A server stays well formed when a session gains a well-formed window
      whose name it does not have yet. */
  lemma AddWindowKeepsValid(server: Server, session: string, window: string)
    requires ValidServer(server) && HasSession(server, session)
    requires WellFormedName(window) && window !in WindowsOf(server, session)
    ensures ValidServer(AddWindow(server, session, window))
  {
    var i := SessionIndex(server, session);
    var ws := server[i].windows;
    AppendUnique(ws, window);
    assert forall k :: 0 <= k < |ws + [window]| ==> WellFormedName((ws + [window])[k]) by {
      assert forall k :: 0 <= k < |ws| ==> (ws + [window])[k] == ws[k];
    }
    ReplaceWindowsKeepsValid(server, i, ws + [window]);
  }

  /** Appending a new name keeps a list of names distinct. */
  lemma AppendUnique(names: seq<string>, x: string)
    requires UniqueNames(names) && x !in names
    ensures UniqueNames(names + [x])
  {
    var r := names + [x];
    forall i, j | 0 <= i < j < |r| ensures r[i] != r[j] {
      if j == |names| {
        assert r[i] == names[i];
      } else {
        assert r[i] == names[i] && r[j] == names[j];
      }
    }
  }

  /** Without an answer from the window listing, whatever the fault, the
      duplicate check passes for a window the session already has, and
      tmux accepts a second window of the same name: the server is no
      longer well formed. */
  lemma {:induction false} FaultedWindowListingAdmitsDuplicate(st: TmuxState, faults: Faults,
      session: string, window: string, entrypoint: string, command: Option<string>, keepOpen: bool)
    requires ValidServer(st.server) && HasSession(st.server, session)
    requires window in WindowsOf(st.server, session)
    requires faults(ListSessionsCmd).None? && faults(ListWindowsCmd(session)).Some?
    requires faults(NewWindowCmd(session, window, entrypoint, ShellArgs(command, keepOpen))).None?
    ensures var r := NewWindow(st, faults, session, window, entrypoint, command, keepOpen);
            r.result == Ok(true) &&
            r.state.server == AddWindow(st.server, session, window) &&
            !ValidServer(r.state.server)
  {
    var check := EnsureSessionExists(st, faults, session);
    assert check.result.Ok?;
    assert SessionExists(check.state, faults, session).0;
    var (exists_, st2) := WindowExists(check.state, faults, session, window);
    assert !exists_;
    var i := SessionIndex(st.server, session);
    var ws := st.server[i].windows;
    var k :| 0 <= k < |ws| && ws[k] == window;
    var after := AddWindow(st.server, session, window);
    assert after[i].windows == ws + [window];
    assert after[i].windows[k] == after[i].windows[|ws|];
  }

  /** `killWindow` keeps the server well formed, whatever the faults. */
  lemma {:induction false} KillWindowKeepsValid(st: TmuxState, faults: Faults, session: string, window: string)
    requires ValidServer(st.server)
    ensures ValidServer(KillWindow(st, faults, session, window).state.server)
  {
    var inv := KillWindowCmd(session, window);
    if faults(inv).None? && HasSession(st.server, session) && window in WindowsOf(st.server, session) {
      var i := SessionIndex(st.server, session);
      var rest := RemoveFirst(st.server[i].windows, window);
      if |rest| == 0 {
        DropSessionKeepsValid(st.server, i);
      } else {
        forall k | 0 <= k < |rest| ensures WellFormedName(rest[k]) {
          assert rest[k] in st.server[i].windows;
        }
        ReplaceWindowsKeepsValid(st.server, i, rest);
      }
      assert ValidServer(Perform(st.server, inv).1);
    }
  }

  /** `killSession` keeps the server well formed, whatever the faults. */
  lemma {:induction false} KillSessionKeepsValid(st: TmuxState, faults: Faults, session: string)
    requires ValidServer(st.server)
    ensures ValidServer(KillSession(st, faults, session).state.server)
  {
    var target := TargetSession(st.server, session);
    if faults(KillSessionCmd(session)).None? && target.Some? {
      DropSessionKeepsValid(st.server, SessionIndex(st.server, target.value));
    }
  }
}
