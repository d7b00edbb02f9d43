/** The background watcher (src/watcher.ts): one tick looks at every
    recorded start, checks the ones whose grace period is over, notifies
    about those that are not RUNNING and drops them from the store; and
    `ensureWatcherRunning` (src/watcherManager.ts), which opens the
    watcher's tmux window when it is missing. */
module Watcher {
  import opened JsStrings
  import opened Outcomes
  import opened Store
  import opened Tmux
  import opened World
  import opened Status
  import ExecTmux

  /** Seconds a start is given: `expectedSecondsToStart ?? 10`, tripled
      under docker. An explicit 0 stays 0. */
  function ExpectedSeconds(s: Service, runtime: string): int {
    s.expectedSecondsToStart.GetOr(10) * (if runtime == "docker" then 3 else 1)
  }

  /** The grace period is over strictly after `startedAt` plus the
      expected time, in milliseconds. */
  predicate Expired(e: StartedService, runtime: string, now: int) {
    now > e.startedAt + ExpectedSeconds(e.service, runtime) * 1000
  }

  /** Reference definition of what the tick keeps: the entries still
      within their grace period, in order. */
  function Remaining(entries: seq<StartedService>, runtime: string, now: int): (r: seq<StartedService>)
    ensures |r| <= |entries|
    ensures forall k :: 0 <= k < |r| ==> r[k] in entries && !Expired(r[k], runtime, now)
    decreases |entries|
  {
    if |entries| == 0 then []
    else
      var rest := Remaining(entries[1..], runtime, now);
      if Expired(entries[0], runtime, now) then rest else [entries[0]] + rest
  }

  /** An entry within its grace period is kept. */
  lemma {:induction false} RemainingKeepsUnexpired(entries: seq<StartedService>, runtime: string, now: int, k: nat)
    requires k < |entries| && !Expired(entries[k], runtime, now)
    ensures entries[k] in Remaining(entries, runtime, now)
    decreases k
  {
    if k > 0 {
      assert entries[1..][k - 1] == entries[k];
      RemainingKeepsUnexpired(entries[1..], runtime, now, k - 1);
    }
  }

  /** A filter that drops nothing is the identity: when no entry expired
      the kept list is the list itself. */
  lemma {:induction false} RemainingFull(entries: seq<StartedService>, runtime: string, now: int)
    requires |Remaining(entries, runtime, now)| == |entries|
    ensures Remaining(entries, runtime, now) == entries
    ensures forall k :: 0 <= k < |entries| ==> !Expired(entries[k], runtime, now)
    decreases |entries|
  {
    if |entries| > 0 {
      var rest := Remaining(entries[1..], runtime, now);
      assert |rest| <= |entries| - 1;
      assert !Expired(entries[0], runtime, now);
      RemainingFull(entries[1..], runtime, now);
      assert entries == [entries[0]] + entries[1..];
      forall k | 1 <= k < |entries|
        ensures !Expired(entries[k], runtime, now)
      {
        assert entries[k] == entries[1..][k - 1];
      }
    }
  }

  function PossiblyFailed(s: Service): string {
    "⚠️ " + s.name + " possibly failed to start."
  }

  /** The names the tick notifies about, judged by the status each
      expired entry has in `st`; an entry whose status throws contributes
      nothing. */
  function Alarms(w: World, st: State, entries: seq<StartedService>, runtime: string, now: int): seq<string>
    decreases |entries|
  {
    if |entries| == 0 then []
    else
      var e := entries[0];
      var status := GetServiceStatus(w, st, e.service.name);
      (if Expired(e, runtime, now) && status.Returned? && status.value != Running then [PossiblyFailed(e.service)] else [])
      + Alarms(w, st, entries[1..], runtime, now)
  }

  /** The loop of one tick over the recorded starts, with the runtime read
      once before it. An expired entry is probed by its service's name; a
      probe that throws ends the tick. The result is the list kept. */
  function Sweep(w: World, st: State, entries: seq<StartedService>, runtime: string, now: int): (r: Outcome<seq<StartedService>>)
    ensures r.state.config == st.config && r.state.tmux.server == st.tmux.server
    ensures r.Returned? ==> r.value == Remaining(entries, runtime, now)
    decreases |entries|
  {
    if |entries| == 0 then Returned([], st)
    else
      var e := entries[0];
      if !Expired(e, runtime, now) then
        match Sweep(w, st, entries[1..], runtime, now)
        case Raised(m, st1) => Raised(m, st1)
        case Returned(rest, st1) => Returned([e] + rest, st1)
      else
        match GetServiceStatus(w, st, e.service.name)
        case Raised(m, st1) => Raised(m, st1)
        case Returned(status, st1) =>
          var st2 := if status != Running then Did(st1, Notified(PossiblyFailed(e.service))) else st1;
          Sweep(w, st2, entries[1..], runtime, now)
  }

  function WatchingLine(stamp: string, entries: seq<StartedService>): Log {
    Info("[" + stamp + "] 👀 watching started services:  " + Join(StartedNames(entries), ", "))
  }

  function StartedNames(entries: seq<StartedService>): (r: seq<string>)
    ensures |r| == |entries| && forall k :: 0 <= k < |entries| ==> r[k] == entries[k].service.name
  {
    seq(|entries|, k requires 0 <= k < |entries| => entries[k].service.name)
  }

  /** One tick; `stamp` is the ISO time of the heading line. The store is
      written back only when the loop finished and dropped something, and
      then it holds exactly the entries still within their grace period. */
  function Tick(w: World, st: State, stamp: string): (r: Outcome<()>)
    ensures r.Raised? ==> r.state.config == st.config
    ensures r.Returned? ==>
      r.state.config == st.config.(startedServices := Remaining(st.config.startedServices, st.config.runtime, w.now))
    ensures r.Returned? && (forall k :: 0 <= k < |st.config.startedServices| ==>
                              !Expired(st.config.startedServices[k], st.config.runtime, w.now)) ==>
      r.state.config == st.config
    ensures r.state.tmux.server == st.tmux.server
  {
    var entries := st.config.startedServices;
    var st0 := Said(st, WatchingLine(stamp, entries));
    NoneExpiredKeepsAll(entries, st.config.runtime, w.now);
    match Sweep(w, st0, entries, st.config.runtime, w.now)
    case Raised(m, st1) => Raised(m, st1)
    case Returned(remaining, st1) =>
      if |remaining| != |entries| then
        Returned((), st1.(config := st1.config.(startedServices := remaining)))
      else
        RemainingFull(entries, st.config.runtime, w.now);
        Returned((), st1)
  }

  lemma {:induction false} NoneExpiredKeepsAll(entries: seq<StartedService>, runtime: string, now: int)
    ensures (forall k :: 0 <= k < |entries| ==> !Expired(entries[k], runtime, now)) ==>
      Remaining(entries, runtime, now) == entries
    decreases |entries|
  {
    if |entries| > 0 && forall k :: 0 <= k < |entries| ==> !Expired(entries[k], runtime, now) {
      assert forall k :: 0 <= k < |entries| - 1 ==> entries[1..][k] == entries[k + 1];
      NoneExpiredKeepsAll(entries[1..], runtime, now);
      assert entries == [entries[0]] + entries[1..];
    }
  }

  /** The notifications of a run of effects, in order. */
  function Notices(effects: seq<Effect>): seq<string>
    decreases |effects|
  {
    if |effects| == 0 then []
    else (if effects[0].Notified? then [effects[0].message] else []) + Notices(effects[1..])
  }

  lemma {:induction false} NoticesAppend(a: seq<Effect>, b: seq<Effect>)
    ensures Notices(a + b) == Notices(a) + Notices(b)
    decreases |a|
  {
    if |a| == 0 {
      assert a + b == b;
    } else {
      assert (a + b)[0] == a[0];
      assert (a + b)[1..] == a[1..] + b;
      NoticesAppend(a[1..], b);
    }
  }

  lemma NoticesOfRan(line: string)
    ensures Notices([Ran(line)]) == []
  {
    assert [Ran(line)][1..] == [];
  }

  /** A status probe runs commands but notifies nobody. */
  lemma StatusNotifiesNothing(w: World, st: State, name: string)
    ensures Notices(GetServiceStatus(w, st, name).state.effects) == Notices(st.effects)
  {
    match FindService(st.config.services, name)
    case None =>
    case Some(i) =>
      var s := st.config.services[i];
      if HasPort(s) {
        var manifest := ManifestLine(st.config.repositoryDirectory, s);
        var m := Execute(w.run(manifest));
        var p := LivenessProbe(w, st, s, s.port.value);
        NoticesAppend(st.effects, [Ran(manifest)]);
        NoticesOfRan(manifest);
        if m.ExecOk? {
          NoticesAppend(st.effects + [Ran(manifest)], [Ran(CurlLine(s.port.value, m.stdout))]);
          NoticesOfRan(CurlLine(s.port.value, m.stdout));
        }
        assert Notices(p.1.effects) == Notices(st.effects);
        if !p.0 {
          NoticesAppend(p.1.effects, [Ran(LsofLine(s.port.value))]);
          NoticesOfRan(LsofLine(s.port.value));
        }
      } else {
        assert SessionCheck(w, st, s).state.effects == st.effects;
      }
  }

  /** The tick's loop notifies exactly the expired entries that are not
      RUNNING, in order: the earlier probes and notifications do not
      change any later status. */
  lemma {:induction false} SweepNotifiesAlarms(w: World, st: State, st': State, entries: seq<StartedService>,
                                               runtime: string, now: int)
    requires st'.config == st.config && st'.tmux.server == st.tmux.server
    ensures Sweep(w, st', entries, runtime, now).Returned? ==>
      Notices(Sweep(w, st', entries, runtime, now).state.effects) == Notices(st'.effects) + Alarms(w, st, entries, runtime, now)
    decreases |entries|
  {
    if |entries| > 0 {
      var e := entries[0];
      AlarmsStep(w, st, st', entries, runtime, now);
      if !Expired(e, runtime, now) {
        SweepNotifiesAlarms(w, st, st', entries[1..], runtime, now);
      } else {
        var status := GetServiceStatus(w, st', e.service.name);
        if status.Returned? {
          var st2 := NoticeIfDown(status.state, e.service, status.value);
          ExpiredStep(w, st', entries, runtime, now);
          SweepNotifiesAlarms(w, st, st2, entries[1..], runtime, now);
        }
      }
    }
  }

  /** The state after one expired entry's probe: notified when not RUNNING. */
  function NoticeIfDown(st: State, s: Service, status: ServiceStatus): State {
    if status != Running then Did(st, Notified(PossiblyFailed(s))) else st
  }

  /** The first entry's alarm, judged on a state that differs from the
      original only in its history. */
  lemma AlarmsStep(w: World, st: State, st': State, entries: seq<StartedService>, runtime: string, now: int)
    requires |entries| > 0
    requires st'.config == st.config && st'.tmux.server == st.tmux.server
    ensures var e := entries[0];
      var status := GetServiceStatus(w, st', e.service.name);
      Alarms(w, st, entries, runtime, now) ==
        (if Expired(e, runtime, now) && status.Returned? && status.value != Running then [PossiblyFailed(e.service)] else [])
        + Alarms(w, st, entries[1..], runtime, now)
  {
    StatusIgnoresHistory(w, st, st', entries[0].service.name);
  }

  /** One expired entry whose probe returns: the sweep goes on from the
      probed state, notified when the service is not RUNNING. */
  lemma ExpiredStep(w: World, st: State, entries: seq<StartedService>, runtime: string, now: int)
    requires |entries| > 0 && Expired(entries[0], runtime, now)
    requires GetServiceStatus(w, st, entries[0].service.name).Returned?
    ensures var e := entries[0];
      var status := GetServiceStatus(w, st, e.service.name);
      var st2 := NoticeIfDown(status.state, e.service, status.value);
      Sweep(w, st, entries, runtime, now) == Sweep(w, st2, entries[1..], runtime, now)
      && st2.config == st.config && st2.tmux.server == st.tmux.server
      && Notices(st2.effects) == Notices(st.effects) + (if status.value != Running then [PossiblyFailed(e.service)] else [])
  {
    var e := entries[0];
    var status := GetServiceStatus(w, st, e.service.name);
    StatusNotifiesNothing(w, st, e.service.name);
    if status.value != Running {
      NoticesAppend(status.state.effects, [Notified(PossiblyFailed(e.service))]);
      assert [Notified(PossiblyFailed(e.service))][1..] == [];
    }
  }

  /** A tick that finishes has notified exactly the alarms of the state it
      started from. */
  lemma TickNotifiesAlarms(w: World, st: State, stamp: string)
    ensures Tick(w, st, stamp).Returned? ==>
      Notices(Tick(w, st, stamp).state.effects) ==
        Notices(st.effects) + Alarms(w, st, st.config.startedServices, st.config.runtime, w.now)
  {
    var st0 := Said(st, WatchingLine(stamp, st.config.startedServices));
    SweepNotifiesAlarms(w, st, st0, st.config.startedServices, st.config.runtime, w.now);
  }

  // ---------------------------------------------------------------------
  // ensureWatcherRunning
  // ---------------------------------------------------------------------

  const WatcherSession := "montra_internal"
  const WatcherWindow := "watcher"
  const WatcherCommand := "node dist/src/watcher.js"

  /** `isCommandAvailable('tmux')`. */
  const TmuxProbeLine := "zsh -c \"command -v tmux\""

  function WatcherEntrypoint(w: World, config: Config): string {
    w.resolve(PathJoin(config.repositoryDirectory, "montra"))
  }

  function WatcherFailed(message: string): Log {
    Failure("❌ Failed to start watcher: " + message)
  }

  /** Without tmux nothing else happens; with the watcher window present
      nothing is created; otherwise a session is created for it, with the
      window closing when the watcher exits. A failed create is logged, never
      thrown. */
  function EnsureWatcherRunning(w: World, st: State): (r: State)
    ensures r.config == st.config
    ensures r.effects == st.effects + [Ran(TmuxProbeLine)]
    ensures Execute(w.run(TmuxProbeLine)).ExecFailed? ==> r.tmux == st.tmux && r.log == st.log
    ensures Execute(w.run(TmuxProbeLine)).ExecOk? && WindowExists(st.tmux, w.tmuxFaults, WatcherSession, WatcherWindow).0 ==>
      r.tmux == WindowExists(st.tmux, w.tmuxFaults, WatcherSession, WatcherWindow).1 && r.log == st.log
    ensures r.tmux.server == st.tmux.server ||
      r.tmux.server == st.tmux.server + [Session(WatcherSession, [WatcherWindow])]
  {
    var probe := Did(st, Ran(TmuxProbeLine));
    if Execute(w.run(TmuxProbeLine)).ExecFailed? then probe
    else
      var (exists_, t1) := WindowExists(st.tmux, w.tmuxFaults, WatcherSession, WatcherWindow);
      if exists_ then probe.(tmux := t1)
      else
        var created := NewSession(t1, w.tmuxFaults, WatcherSession, WatcherWindow,
                                  WatcherEntrypoint(w, st.config), Some(WatcherCommand), false);
        NewSessionServer(t1, w.tmuxFaults, WatcherSession, WatcherWindow,
                         WatcherEntrypoint(w, st.config), Some(WatcherCommand), false);
        var st2 := probe.(tmux := created.state);
        if created.result.Ok? then st2
        else Said(st2, WatcherFailed(created.result.error.message))
  }

  /** A create either leaves the server alone or appends the new session
      with its one window. */
  lemma NewSessionServer(st: TmuxState, faults: Faults, session: string, window: string,
                         entrypoint: string, command: Option<string>, keepOpen: bool)
    ensures var r := NewSession(st, faults, session, window, entrypoint, command, keepOpen);
      r.state.server == st.server || r.state.server == st.server + [Session(session, [window])]
  {
  }

  /** The watcher's window runs the bare command: it is not an `npm`
      command and no shell is kept open after it, so the window closes
      when the watcher exits. */
  lemma WatcherRunsBareCommand()
    ensures ShellArgs(Some(WatcherCommand), false) == [WrapShellCommand(WatcherCommand, false)]
    ensures QuoteRemoval(WrapShellCommand(WatcherCommand, false), false) == Some(WatcherCommand)
  {
    assert !Contains(WatcherCommand, "npm ") by {
      NoNpm();
    }
    WrapShellCommandShape(WatcherCommand, false);
  }

  lemma NoNpm()
    ensures !Contains(WatcherCommand, "npm ")
  {
    assert 'p' !in WatcherCommand;
    if Contains(WatcherCommand, "npm ") {
      ContainsChar(WatcherCommand, "npm ", 1);
    }
  }

  /** Every character of a contained string occurs in the container. */
  lemma {:induction false} ContainsChar(s: string, sub: string, k: nat)
    requires k < |sub| && Contains(s, sub)
    ensures sub[k] in s
    decreases |s|
  {
    if StartsWith(s, sub) {
      assert s[k] == s[..|sub|][k];
    } else {
      ContainsChar(s[1..], sub, k);
      var j :| 0 <= j < |s[1..]| && s[1..][j] == sub[k];
      assert s[j + 1] == sub[k];
    }
  }

  /** On a well-formed server without faults, with tmux available: after
      the call the watcher window exists, unless the watcher's session was
      there without it, in which case the create is refused, the refusal
      is logged and the watcher stays down. */
  lemma WatcherRunningAfterEnsure(w: World, st: State)
    requires ValidServer(st.tmux.server) && forall inv :: w.tmuxFaults(inv).None?
    requires Execute(w.run(TmuxProbeLine)).ExecOk?
    ensures var r := EnsureWatcherRunning(w, st);
      if !HasSession(st.tmux.server, WatcherSession) then
        HasSession(r.tmux.server, WatcherSession) && WatcherWindow in WindowsOf(r.tmux.server, WatcherSession)
      else if WatcherWindow in WindowsOf(st.tmux.server, WatcherSession) then
        r.tmux.server == st.tmux.server && r.log == st.log
      else
        r.tmux.server == st.tmux.server &&
        r.log == st.log + [WatcherFailed("Session " + WatcherSession + " already exist")]
  {
    if !HasSession(st.tmux.server, WatcherSession) {
      WatcherCreatedWhenAbsent(w, st);
    } else if WatcherWindow in WindowsOf(st.tmux.server, WatcherSession) {
      assert WindowExists(st.tmux, w.tmuxFaults, WatcherSession, WatcherWindow).0;
    } else {
      WatcherRefusedWhenSessionLeft(w, st);
    }
  }

  lemma WatcherCreatedWhenAbsent(w: World, st: State)
    requires ValidServer(st.tmux.server) && forall inv :: w.tmuxFaults(inv).None?
    requires Execute(w.run(TmuxProbeLine)).ExecOk?
    requires !HasSession(st.tmux.server, WatcherSession)
    ensures var r := EnsureWatcherRunning(w, st);
      HasSession(r.tmux.server, WatcherSession) && WatcherWindow in WindowsOf(r.tmux.server, WatcherSession)
  {
    var faults := w.tmuxFaults;
    var (exists_, t1) := WindowExists(st.tmux, faults, WatcherSession, WatcherWindow);
    assert !exists_;
    var args := ShellArgs(Some(WatcherCommand), false);
    assert faults(ListSessionsCmd).None?;
    assert faults(NewSessionCmd(WatcherSession, WatcherWindow, WatcherEntrypoint(w, st.config), args)).None?;
    var created := NewSession(t1, faults, WatcherSession, WatcherWindow,
                              WatcherEntrypoint(w, st.config), Some(WatcherCommand), false);
    assert created.state.server == st.tmux.server + [Session(WatcherSession, [WatcherWindow])];
    assert EnsureWatcherRunning(w, st).tmux == created.state;
    AppendedSessionFound(st.tmux.server, Session(WatcherSession, [WatcherWindow]));
  }

  lemma WatcherRefusedWhenSessionLeft(w: World, st: State)
    requires ValidServer(st.tmux.server) && forall inv :: w.tmuxFaults(inv).None?
    requires Execute(w.run(TmuxProbeLine)).ExecOk?
    requires HasSession(st.tmux.server, WatcherSession) && WatcherWindow !in WindowsOf(st.tmux.server, WatcherSession)
    ensures var r := EnsureWatcherRunning(w, st);
      r.tmux.server == st.tmux.server &&
      r.log == st.log + [WatcherFailed("Session " + WatcherSession + " already exist")]
  {
    var faults := w.tmuxFaults;
    var (exists_, t1) := WindowExists(st.tmux, faults, WatcherSession, WatcherWindow);
    assert faults(ListSessionsCmd).None? && faults(ListWindowsCmd(WatcherSession)).None?;
    assert !exists_;
    assert t1.server == st.tmux.server;
    assert Tmux.SessionExists(t1, faults, WatcherSession).0;
    var created := NewSession(t1, faults, WatcherSession, WatcherWindow,
                              WatcherEntrypoint(w, st.config), Some(WatcherCommand), false);
    assert created.result == Err(ExecTmux.TmuxInternal("Session " + WatcherSession + " already exist"));
    assert created.state.server == st.tmux.server;
    var st2 := Did(st, Ran(TmuxProbeLine)).(tmux := created.state);
    assert EnsureWatcherRunning(w, st) == Said(st2, WatcherFailed(created.result.error.message));
  }

  /** A session appended under a fresh name is found, with its windows. */
  lemma AppendedSessionFound(server: Server, s: Session)
    requires !HasSession(server, s.name)
    ensures HasSession(server + [s], s.name) && WindowsOf(server + [s], s.name) == s.windows
  {
    var server' := server + [s];
    assert SessionNames(server')[|server|] == s.name;
    forall j | 0 <= j < |server|
      ensures server'[j].name != s.name
    {
      assert server'[j].name == SessionNames(server)[j];
    }
    assert SessionIndex(server', s.name) == |server|;
  }
}
