/** The tmux command layer of src/lib/tmux/execTmux.ts: a static table of
    the subcommands montra may issue, a builder that renders a subcommand
    with its flags, options and positional arguments as one command line,
    and `execTmux`, which refuses anything that is not a tmux command line
    and otherwise classifies what running it produced. */
module ExecTmux {
  import opened JsStrings
  import opened Outcomes

  /** One entry of the command table: the legal boolean flags, the legal
      value options and the names of the positional arguments. */
  datatype CommandSpec = CommandSpec(alias: string, flags: seq<string>,
                                     options: seq<string>, args: seq<string>)

  const TmuxCommandTree: map<string, CommandSpec> := map[
    "new-session" := CommandSpec("new", ["-d", "-P", "-X", "-D", "-E", "-A"],
                                 ["-s", "-c", "-n", "-e", "-F", "-x", "-y", "-t"], ["command"]),
    "list-sessions" := CommandSpec("ls", [], ["-F", "-f"], []),
    "kill-session" := CommandSpec("kill", ["-a", "-C"], ["-t"], []),
    "has-session" := CommandSpec("has", [], ["-t"], []),
    "new-window" := CommandSpec("neww", ["-a", "-b", "-d", "-k", "-P", "-S"],
                                ["-c", "-e", "-F", "-n", "-t"], ["shell-command"]),
    "list-windows" := CommandSpec("lsw", ["-a"], ["-F", "-f", "-t"], []),
    "kill-window" := CommandSpec("killw", ["-a"], ["-t"], []),
    "capture-pane" := CommandSpec("capturep", ["-a", "-C", "-e", "-J", "-N", "-p", "-P", "-q", "-T"],
                                  ["-b", "-E", "-S", "-t"], []),
    "set-window-option" := CommandSpec("setw", ["-a", "-F", "-g", "-o", "-q", "-u"], ["-t"], ["value"])
  ]

  /** An entry of the options object: a key and a value that may be
      `undefined`. Keys appear in the object's insertion order. */
  type OptionEntry = (string, Option<string>)

  /** What the type parameters of `buildTmuxCommand` enforce at compile
      time: a known subcommand, flags and option keys taken from its table
      entry, and option keys that are distinct (they are object keys). */
  predicate ValidInvocation(command: string, options: seq<OptionEntry>, flags: seq<string>) {
    && command in TmuxCommandTree
    && (forall i :: 0 <= i < |flags| ==> flags[i] in TmuxCommandTree[command].flags)
    && (forall i :: 0 <= i < |options| ==> options[i].0 in TmuxCommandTree[command].options)
    && (forall i, j :: 0 <= i < j < |options| ==> options[i].0 != options[j].0)
  }

  /** Each option contributes its key and then its value; `join` renders an
      `undefined` value as the empty string. */
  function OptionTokens(options: seq<OptionEntry>): (r: seq<string>)
    ensures |r| == 2 * |options|
    ensures forall i :: 0 <= i < |options| ==>
      r[2 * i] == options[i].0 && r[2 * i + 1] == options[i].1.GetOr("")
    decreases |options|
  {
    if |options| == 0 then []
    else [options[0].0, options[0].1.GetOr("")] + OptionTokens(options[1..])
  }

  /** The parts `buildTmuxCommand` joins: `tmux`, the subcommand, every
      flag, every option key/value pair, then the positional arguments. */
  function CommandTokens(command: string, options: seq<OptionEntry>, flags: seq<string>,
                         args: seq<string>): seq<string>
  {
    ["tmux", command] + flags + OptionTokens(options) + args
  }

  function BuildTmuxCommand(command: string, options: seq<OptionEntry>, flags: seq<string>,
                            args: seq<string> := []): (r: string)
    requires ValidInvocation(command, options, flags)
    ensures StartsWith(r, "tmux " + command)
  {
    var rest := flags + OptionTokens(options) + args;
    JoinHeadPair("tmux", command, rest, " ");
    assert CommandTokens(command, options, flags, args) == ["tmux", command] + rest;
    Join(CommandTokens(command, options, flags, args), " ")
  }

  lemma JoinHeadPair(a: string, b: string, rest: seq<string>, sep: string)
    ensures StartsWith(Join([a, b] + rest, sep), a + sep + b)
  {
    var parts := [a, b] + rest;
    assert parts[1..] == [b] + rest;
    assert ([b] + rest)[1..] == rest;
  }

  /** Splitting the built command line on spaces gives back, in order,
      `tmux`, the subcommand, the flags, each option key followed by its
      value (empty when absent) and the arguments, whenever none of them
      contains a space. So flags always come before options and options
      before arguments, whatever the caller's order. */
  lemma BuildTokensRoundTrip(command: string, options: seq<OptionEntry>, flags: seq<string>,
                             args: seq<string>)
    requires ValidInvocation(command, options, flags)
    requires forall t :: t in CommandTokens(command, options, flags, args) ==> ' ' !in t
    ensures Split(BuildTmuxCommand(command, options, flags, args), ' ') ==
            ["tmux", command] + flags + OptionTokens(options) + args
  {
    var tokens := CommandTokens(command, options, flags, args);
    forall i | 0 <= i < |tokens| ensures ' ' !in tokens[i] {
      assert tokens[i] in tokens;
    }
    SplitJoin(tokens, ' ');
  }

  /** An absent option value still emits the key, followed by an empty
      token: the line carries two spaces in a row there. */
  lemma AbsentOptionValueLeavesEmptyToken()
    ensures BuildTmuxCommand("new-session", [("-s", Some("api")), ("-n", None), ("-c", Some("/r"))], ["-d"])
            == "tmux new-session -d -s api -n  -c /r"
  {
  }

  /** The three ways `execTmux` fails. */
  datatype TmuxError =
    | TmuxExec(code: ErrCode, message: string)
    | TmuxInternal(message: string)
    | TmuxUnknown(message: string)

  datatype ExecTmuxResult = TmuxRan(stdout: string, stderr: string) | TmuxFailed(error: TmuxError)

  const NotATmuxCommand := "Expected a tmux command"

  /** The prefix guard: after trimming, the line must start with `tmux `. */
  predicate PassesGuard(command: string) {
    StartsWith(Trim(command), "tmux ")
  }

  /** `execTmux(command)` where `ran` is what executing `command` would
      produce. A line that fails the guard is refused with an internal error
      and `ran` plays no part: nothing is executed. Otherwise a completed run
      is a success with its output and a thrown value is an `exec` error when
      it has `code` and `message`, and `unknown` otherwise. No case throws. */
  function ExecTmux(command: string, ran: RunOutcome): (r: ExecTmuxResult)
    ensures !PassesGuard(command) ==> r == TmuxFailed(TmuxInternal(NotATmuxCommand))
    ensures PassesGuard(command) && ran.Completed? ==> r == TmuxRan(ran.stdout, ran.stderr)
    ensures PassesGuard(command) && ran.Threw? && IsExecException(ran.thrown) ==>
      r == TmuxFailed(TmuxExec(ran.thrown.code, ran.thrown.message))
    ensures PassesGuard(command) && ran.Threw? && !IsExecException(ran.thrown) ==>
      r == TmuxFailed(TmuxUnknown(ran.thrown.message))
  {
    if !PassesGuard(command) then TmuxFailed(TmuxInternal(NotATmuxCommand))
    else ClassifyRun(ran)
  }

  /** What `execTmux` reports for a line that passed the guard. */
  function ClassifyRun(ran: RunOutcome): ExecTmuxResult {
    match ran
    case Completed(out, err) => TmuxRan(out, err)
    case Threw(t) =>
      match ClassifyThrown(t)
      case ExecError(code, msg) => TmuxFailed(TmuxExec(code, msg))
      case UnknownError(msg) => TmuxFailed(TmuxUnknown(msg))
  }

  /** Every line `buildTmuxCommand` produces passes the prefix guard, so
      `execTmux` never answers it with "Expected a tmux command". */
  lemma BuiltCommandPassesGuard(command: string, options: seq<OptionEntry>, flags: seq<string>,
                                args: seq<string>)
    requires ValidInvocation(command, options, flags)
    ensures PassesGuard(BuildTmuxCommand(command, options, flags, args))
  {
    var s := BuildTmuxCommand(command, options, flags, args);
    assert |command| > 0 && !IsWhitespace(command[0]) by {
      CommandNamesStartWithLetter(command);
    }
    assert s[..6] == "tmux " + [command[0]] by {
      assert StartsWith(s, "tmux " + command);
      assert s[..5 + |command|] == "tmux " + command;
      assert s[..6] == (s[..5 + |command|])[..6];
    }
    TrimKeepsPrefix(s, 6);
    assert Trim(s)[..5] == s[..6][..5];
  }

  lemma CommandNamesStartWithLetter(command: string)
    requires command in TmuxCommandTree
    ensures |command| > 0 && 'a' <= command[0] <= 'z'
  {
  }

  /** A line that does not start with `tmux ` is never run. */
  lemma GuardRefusesOtherCommands(command: string, ran: RunOutcome)
    requires !StartsWith(Trim(command), "tmux ")
    ensures ExecTmux(command, ran).TmuxFailed? && ExecTmux(command, ran).error.TmuxInternal?
  {
  }
}
