/** Starting, stopping and restarting services (src/commands/service/
    start.ts, stop.ts, restart.ts) and the group fan-outs
    (src/commands/group/start.ts, stop.ts). `start` dispatches on the
    global runtime and records a `StartedService`; `stop` dispatches on the
    service's own runtime and never writes the store. */
module Lifecycle {
  import opened JsStrings
  import opened Outcomes
  import opened Store
  import Tmux
  import opened Docker
  import opened ComposeFile
  import opened World
  import opened Status

  /** `<repositoryDirectory>/<repository>/docker-compose.yml`. */
  function ServiceComposeFile(config: Config, s: Service): string {
    PathJoin(PathJoin(config.repositoryDirectory, s.repository), "docker-compose.yml")
  }

  /** `path.resolve(<repositoryDirectory>, 'coms', 'docker-compose.yml')`. */
  function ComsComposeFile(w: World, config: Config): string {
    w.resolve(PathJoin(PathJoin(config.repositoryDirectory, "coms"), "docker-compose.yml"))
  }

  /** The directory a tmux window opens in. */
  function Entrypoint(config: Config, s: Service): string {
    PathJoin(config.repositoryDirectory, s.repository)
  }

  /** Runs one compose helper and records the line it ran: it succeeds
      exactly when that line completed, and nothing but the effect list
      changes, by exactly that line. */
  function RunCompose(w: World, st: State, action: ComposeAction, path: string,
                      names: seq<string>): (r: (ComposeResult, State))
    ensures r.0 == DockerCompose(w.resolve, w.run, action, path, names)
    ensures r.0.ComposeOk? <==> w.run(ComposeCommand(action, w.resolve(path), names)).Completed?
    ensures r.1.config == st.config && r.1.tmux == st.tmux && r.1.log == st.log
    ensures r.1.effects == st.effects + [Ran(ComposeCommand(action, w.resolve(path), names))]
  {
    (DockerCompose(w.resolve, w.run, action, path, names), Did(st, Ran(ComposeCommand(action, w.resolve(path), names))))
  }

  function Started(s: Service): Log {
    Info("✅ " + s.name + " started")
  }

  function StoppedLine(s: Service): Log {
    Info("✅ " + s.name + " stopped")
  }

  function StartFailed(s: Service, message: string): string {
    "Failed to start service " + s.name + ": " + message
  }

  function NotSetUp(s: Service, path: string): Log {
    Failure("❌ Service " + s.name + " is not setup in " + path + ", please add the service there before proceeding.")
  }

  // ---------------------------------------------------------------------
  // start
  // ---------------------------------------------------------------------

  /** `startDockerComposeService`: compose up of the service's own compose
      file with its name; a failure throws. */
  function StartCompose(w: World, st: State, s: Service): (r: Outcome<()>)
    ensures var (c, st1) := RunCompose(w, st, Up, ServiceComposeFile(st.config, s), [s.name]);
      && (r.Returned? <==> c.ComposeOk?)
      && (r.Returned? ==> r.state == Said(st1, Started(s)))
      && (r.Raised? ==> r == Raised(StartFailed(s, c.error.message), st1))
  {
    var (c, st1) := RunCompose(w, st, Up, ServiceComposeFile(st.config, s), [s.name]);
    if c.ComposeOk? then Returned((), Said(st1, Started(s)))
    else Raised(StartFailed(s, c.error.message), st1)
  }

  /** `startTmuxService`: a new session named after the service type when
      there is none, a new window in it otherwise, named `alias ?? name`.
      A failed session create throws; a failed window create is only
      logged. The store is not touched. */
  function StartTmux(w: World, st: State, s: Service): (r: Outcome<()>)
    ensures r.state.config == st.config && r.state.effects == st.effects
    ensures var (exists_, t1) := Tmux.SessionExists(st.tmux, w.tmuxFaults, TypeName(s.serviceType));
      exists_ ==> (r.Returned? &&
        r.state.tmux == Tmux.NewWindow(t1, w.tmuxFaults, TypeName(s.serviceType), WindowName(s),
                                      Entrypoint(st.config, s), s.runCommand).state)
    ensures var (exists_, t1) := Tmux.SessionExists(st.tmux, w.tmuxFaults, TypeName(s.serviceType));
      var created := Tmux.NewSession(t1, w.tmuxFaults, TypeName(s.serviceType), WindowName(s),
                                     Entrypoint(st.config, s), s.runCommand);
      !exists_ ==> (r.state.tmux == created.state &&
        (r.Raised? <==> created.result.Err?) &&
        (r.Raised? ==> r.message == StartFailed(s, created.result.error.message)))
  {
    var session := TypeName(s.serviceType);
    var entry := Entrypoint(st.config, s);
    var (exists_, t1) := Tmux.SessionExists(st.tmux, w.tmuxFaults, session);
    if !exists_ then
      var created := Tmux.NewSession(t1, w.tmuxFaults, session, WindowName(s), entry, s.runCommand);
      var st2 := st.(tmux := created.state);
      if created.result.Ok? then Returned((), Said(st2, Started(s)))
      else Raised(StartFailed(s, created.result.error.message), st2)
    else
      var opened_ := Tmux.NewWindow(t1, w.tmuxFaults, session, WindowName(s), entry, s.runCommand);
      var st2 := st.(tmux := opened_.state);
      if opened_.result.Ok? then Returned((), Said(st2, Started(s)))
      else Returned((), Said(st2, Failure("⚠️ " + StartFailed(s, opened_.result.error.message))))
  }

  /** `startDockerService`: the compose service of the shared `coms` file
      whose image mentions the repository is brought up. A lookup that
      throws rethrows; no match is only logged; a failed compose up throws. */
  function StartDocker(w: World, st: State, s: Service): (r: Outcome<()>)
    ensures r.state.config == st.config && r.state.tmux == st.tmux
    ensures var path := ComsComposeFile(w, st.config);
      match FindComposeServiceByImage(w.files, path, s.repository)
      case FindThrew(m) => r == Raised(m, st)
      case NotFound => r == Returned((), Said(st, NotSetUp(s, path)))
      case Found(m) =>
        var (c, st1) := RunCompose(w, st, Up, path, [m.serviceName]);
        (r.Returned? <==> c.ComposeOk?) && (r.Raised? ==> r == Raised(StartFailed(s, c.error.message), st1))
  {
    var path := ComsComposeFile(w, st.config);
    match FindComposeServiceByImage(w.files, path, s.repository)
    case FindThrew(m) => Raised(m, st)
    case NotFound => Returned((), Said(st, NotSetUp(s, path)))
    case Found(m) =>
      var (c, st1) := RunCompose(w, st, Up, path, [m.serviceName]);
      if c.ComposeOk? then Returned((), Said(st1, Started(s)))
      else Raised(StartFailed(s, c.error.message), st1)
  }

  function InvalidRuntime(runtime: string): string {
    "Invalid runtime \"" + runtime + "\" specified in config"
  }

  const LambdaStartNotImplemented := "Starting lambdas running in localstack is not implemented yet"

  /** Appends the entry the watcher later checks. */
  function Record(st: State, s: Service, now: int): State {
    st.(config := st.config.(startedServices := st.config.startedServices + [StartedService(s, now)]))
  }

  /** The start of a found, not running service: by type first, then by
      the global runtime, recording the start when the runtime start
      returned. */
  function Launch(w: World, st: State, s: Service): (r: Outcome<()>)
    ensures s.serviceType == DockerComposeService ==> r == StartCompose(w, st, s)
    ensures s.serviceType == Lambda && !HasPort(s) ==> r == Raised(LambdaStartNotImplemented, st)
    ensures r.Raised? ==> r.state.config == st.config
    ensures r.Returned? && s.serviceType != DockerComposeService ==>
      r.state.config == st.config.(startedServices := st.config.startedServices + [StartedService(s, w.now)])
    ensures s.serviceType != DockerComposeService && !(s.serviceType == Lambda && !HasPort(s)) ==>
      if st.config.runtime == "tmux" then (r.Returned? <==> StartTmux(w, st, s).Returned?)
      else if st.config.runtime == "docker" then (r.Returned? <==> StartDocker(w, st, s).Returned?)
      else r == Raised(InvalidRuntime(st.config.runtime), st)
  {
    if s.serviceType == DockerComposeService then StartCompose(w, st, s)
    else if s.serviceType == Lambda && !HasPort(s) then Raised(LambdaStartNotImplemented, st)
    else
      var launched :=
        if st.config.runtime == "tmux" then StartTmux(w, st, s)
        else if st.config.runtime == "docker" then StartDocker(w, st, s)
        else Raised(InvalidRuntime(st.config.runtime), st);
      match launched
      case Raised(m, st2) => Raised(m, st2)
      case Returned(_, st2) => Returned((), Record(st2, s, w.now))
  }

  /** How a start may change the store: by appending `StartedService`
      entries stamped with the command's clock, each for a stored service,
      and in no other way. */
  predicate OnlyRecords(w: World, before: Config, after: Config) {
    && after == before.(startedServices := after.startedServices)
    && |before.startedServices| <= |after.startedServices|
    && after.startedServices[..|before.startedServices|] == before.startedServices
    && forall k :: |before.startedServices| <= k < |after.startedServices| ==>
         after.startedServices[k].service in before.services && after.startedServices[k].startedAt == w.now
  }

  lemma OnlyRecordsTrans(w: World, a: Config, b: Config, c: Config)
    requires OnlyRecords(w, a, b) && OnlyRecords(w, b, c)
    ensures OnlyRecords(w, a, c)
  {
    var n := |a.startedServices|;
    assert c.startedServices[..n] == c.startedServices[..|b.startedServices|][..n];
    forall k | |b.startedServices| > k >= n
      ensures c.startedServices[k] == b.startedServices[k]
    {
      assert c.startedServices[..|b.startedServices|][k] == c.startedServices[k];
    }
  }

  /** A loop whose every step only records starts only records starts. */
  lemma {:induction false} ForEachOnlyRecords(w: World, st: State, xs: seq<string>, f: (State, string) -> Outcome<()>)
    requires forall s: State, x: string :: OnlyRecords(w, s.config, f(s, x).state.config)
    ensures OnlyRecords(w, st.config, ForEach(st, xs, f).state.config)
    decreases |xs|
  {
    if |xs| == 0 {
      assert st.config.startedServices[..|st.config.startedServices|] == st.config.startedServices;
    } else {
      match f(st, xs[0])
      case Raised(_, _) =>
      case Returned(_, st1) =>
        ForEachOnlyRecords(w, st1, xs[1..], f);
        OnlyRecordsTrans(w, st.config, st1.config, ForEach(st1, xs[1..], f).state.config);
    }
  }

  /** A store left as it was only records starts, vacuously. */
  lemma KeptOnlyRecords(w: World, c: Config)
    ensures OnlyRecords(w, c, c)
  {
    assert c.startedServices[..|c.startedServices|] == c.startedServices;
  }

  /** `start` for one name only records starts: at most one entry, for the
      probed stored service, at the command's clock. */
  lemma StartOneOnlyRecords(w: World, st: State, name: string)
    ensures OnlyRecords(w, st.config, StartOne(w, st, name).state.config)
  {
    var r := StartOne(w, st, name);
    if r.state.config == st.config {
      KeptOnlyRecords(w, st.config);
    } else {
      var n := |st.config.startedServices|;
      assert r.state.config.startedServices[..n] == st.config.startedServices;
      assert r.state.config.startedServices[n].service == Probed(st, name);
    }
  }

  lemma StartOneStepsOnlyRecord(w: World)
    ensures forall s: State, x: string :: OnlyRecords(w, s.config, StartOne(w, s, x).state.config)
  {
    forall s: State, x: string ensures OnlyRecords(w, s.config, StartOne(w, s, x).state.config) {
      StartOneOnlyRecords(w, s, x);
    }
  }

  /** `start(name)` for one name: the status is probed first (an unknown
      name throws there); a RUNNING service is left alone. */
  function StartOne(w: World, st: State, name: string): (r: Outcome<()>)
    ensures FindService(st.config.services, name).None? ==> r == Raised(UnknownService(name), st)
    ensures GetServiceStatus(w, st, name) == Returned(Running, GetServiceStatus(w, st, name).state) ==>
      r == Returned((), GetServiceStatus(w, st, name).state)
    ensures GetServiceStatus(w, st, name).Returned? && GetServiceStatus(w, st, name).value != Running ==>
      r == Launch(w, GetServiceStatus(w, st, name).state, Probed(st, name))
    ensures r.state.config == st.config ||
      r.state.config == st.config.(startedServices := st.config.startedServices + [StartedService(Probed(st, name), w.now)])
  {
    match GetServiceStatus(w, st, name)
    case Raised(m, st1) => Raised(m, st1)
    case Returned(Running, st1) => Returned((), st1)
    case Returned(_, st1) =>
      match FindService(st1.config.services, name)
      case None => Raised(UnknownService(name), st1)
      case Some(i) => Launch(w, st1, st1.config.services[i])
  }

  /** `start(name)`: `all` starts every stored service by name, in store
      order, one at a time. Whatever it starts or throws, the store only
      gains start records; an unknown name throws before anything is
      done, and `all` over an empty store does nothing. */
  function Start(w: World, st: State, name: string): (r: Outcome<()>)
    ensures name == "all" ==> r == ForEach(st, ServiceNames(st.config.services), (s: State, n: string) => StartOne(w, s, n))
    ensures name != "all" ==> r == StartOne(w, st, name)
    ensures OnlyRecords(w, st.config, r.state.config)
    ensures name != "all" && FindService(st.config.services, name).None? ==> r == Raised(UnknownService(name), st)
    ensures name == "all" && |st.config.services| == 0 ==> r == Returned((), st)
  {
    StartOneStepsOnlyRecord(w);
    ForEachOnlyRecords(w, st, ServiceNames(st.config.services), (s: State, n: string) => StartOne(w, s, n));
    StartOneOnlyRecords(w, st, name);
    if name == "all" then ForEach(st, ServiceNames(st.config.services), (s: State, n: string) => StartOne(w, s, n))
    else StartOne(w, st, name)
  }

  /** A start that throws leaves the store as it was: nothing is appended
      for it. */
  lemma StartOneRaisedWritesNothing(w: World, st: State, name: string)
    ensures StartOne(w, st, name).Raised? ==> StartOne(w, st, name).state.config == st.config
  {
  }

  /** A service whose window is open but that has no port reads as
      SESSION_EXISTS, so `start` goes ahead: under tmux on a well-formed
      server the window create is refused as a duplicate, the refusal is
      only logged, and a `StartedService` is appended all the same. */
  lemma StartingAnOpenWindowStillRecords(w: World, st: State, name: string)
    requires st.config.runtime == "tmux" && Tmux.ValidServer(st.tmux.server)
    requires FindService(st.config.services, name).Some?
    requires var s := Probed(st, name);
      && s.serviceType != DockerComposeService && s.serviceType != Lambda && !HasPort(s)
      && s.alias.None?
      && Tmux.HasSession(st.tmux.server, TypeName(s.serviceType))
      && s.name in Tmux.WindowsOf(st.tmux.server, TypeName(s.serviceType))
    requires forall inv :: w.tmuxFaults(inv).None?
    ensures var s := Probed(st, name);
      var r := StartOne(w, st, name);
      && r.Returned?
      && r.state.config.startedServices == st.config.startedServices + [StartedService(s, w.now)]
      && r.state.tmux.server == st.tmux.server
  {
    var s := Probed(st, name);
    TmuxStatusReflectsServer(w, st, name);
    var st1 := GetServiceStatus(w, st, name).state;
    assert GetServiceStatus(w, st, name) == Returned(SessionExists, st1);
    assert st1.config == st.config && st1.tmux.server == st.tmux.server;
    assert StartOne(w, st, name) == Launch(w, st1, s);
    LaunchIntoOpenWindow(w, st1, s);
  }

  /** Launching into an open window under tmux still records the start
      and leaves the server as it was. */
  lemma LaunchIntoOpenWindow(w: World, st: State, s: Service)
    requires st.config.runtime == "tmux" && Tmux.ValidServer(st.tmux.server)
    requires s.serviceType != DockerComposeService && s.serviceType != Lambda && s.alias.None?
    requires Tmux.HasSession(st.tmux.server, TypeName(s.serviceType))
    requires s.name in Tmux.WindowsOf(st.tmux.server, TypeName(s.serviceType))
    requires forall inv :: w.tmuxFaults(inv).None?
    ensures var r := Launch(w, st, s);
      && r.Returned?
      && r.state.config.startedServices == st.config.startedServices + [StartedService(s, w.now)]
      && r.state.tmux.server == st.tmux.server
  {
    StartTmuxIntoOpenWindow(w, st, s);
  }

  /** Under tmux, a window create for an open window is refused, the
      refusal is only logged, and the server is unchanged. */
  lemma StartTmuxIntoOpenWindow(w: World, st: State, s: Service)
    requires Tmux.ValidServer(st.tmux.server) && s.alias.None?
    requires Tmux.HasSession(st.tmux.server, TypeName(s.serviceType))
    requires s.name in Tmux.WindowsOf(st.tmux.server, TypeName(s.serviceType))
    requires forall inv :: w.tmuxFaults(inv).None?
    ensures StartTmux(w, st, s).Returned? && StartTmux(w, st, s).state.tmux.server == st.tmux.server
  {
    var session := TypeName(s.serviceType);
    var (exists_, t1) := Tmux.SessionExists(st.tmux, w.tmuxFaults, session);
    assert exists_;
    Tmux.NewWindowOnValidServer(t1, w.tmuxFaults, session, WindowName(s), Entrypoint(st.config, s),
                                s.runCommand, true);
  }

  // ---------------------------------------------------------------------
  // stop
  // ---------------------------------------------------------------------

  /** `stopDockerComposeService`: compose stop of the service's own
      compose file with its name; a failure throws. */
  function StopCompose(w: World, st: State, s: Service): (r: Outcome<()>)
    ensures var (c, st1) := RunCompose(w, st, Docker.Stop, ServiceComposeFile(st.config, s), [s.name]);
      && (r.Returned? <==> c.ComposeOk?)
      && (r.Returned? ==> r.state == Said(st1, StoppedLine(s)))
      && (r.Raised? ==> r == Raised("Failed to stop service " + s.name + ": " + c.error.message, st1))
  {
    var (c, st1) := RunCompose(w, st, Docker.Stop, ServiceComposeFile(st.config, s), [s.name]);
    if c.ComposeOk? then Returned((), Said(st1, StoppedLine(s)))
    else Raised("Failed to stop service " + s.name + ": " + c.error.message, st1)
  }

  /** `stopTmuxService`: kills window `alias ?? name` of session `type`.
      It never throws: an internal error (no such window) is an
      informational no-op and any other failure is logged. */
  function StopTmux(w: World, st: State, s: Service): (r: Outcome<()>)
    ensures var k := Tmux.KillWindow(st.tmux, w.tmuxFaults, TypeName(s.serviceType), WindowName(s));
      && r.Returned? && r.state.tmux == k.state
      && r.state == Said(st.(tmux := k.state),
           if k.result.Ok? then StoppedLine(s)
           else if k.result.error.TmuxInternal? then Info("ℹ️ Nothing changed, " + s.name + " was not running")
           else Failure("⚠️ Failed to stop service " + s.name + ": " + k.result.error.message))
  {
    var k := Tmux.KillWindow(st.tmux, w.tmuxFaults, TypeName(s.serviceType), WindowName(s));
    var st1 := st.(tmux := k.state);
    if k.result.Ok? then Returned((), Said(st1, StoppedLine(s)))
    else if k.result.error.TmuxInternal? then Returned((), Said(st1, Info("ℹ️ Nothing changed, " + s.name + " was not running")))
    else Returned((), Said(st1, Failure("⚠️ Failed to stop service " + s.name + ": " + k.result.error.message)))
  }

  /** `stopDockerService`: like the docker start, with compose stop; its
      failure message says "start", as the code does. */
  function StopDocker(w: World, st: State, s: Service): (r: Outcome<()>)
    ensures r.state.config == st.config && r.state.tmux == st.tmux
    ensures var path := ComsComposeFile(w, st.config);
      match FindComposeServiceByImage(w.files, path, s.repository)
      case FindThrew(m) => r == Raised(m, st)
      case NotFound => r == Returned((), Said(st, NotSetUp(s, path)))
      case Found(m) =>
        var (c, st1) := RunCompose(w, st, Docker.Stop, path, [m.serviceName]);
        (r.Returned? <==> c.ComposeOk?) && (r.Raised? ==> r == Raised(StartFailed(s, c.error.message), st1))
  {
    var path := ComsComposeFile(w, st.config);
    match FindComposeServiceByImage(w.files, path, s.repository)
    case FindThrew(m) => Raised(m, st)
    case NotFound => Returned((), Said(st, NotSetUp(s, path)))
    case Found(m) =>
      var (c, st1) := RunCompose(w, st, Docker.Stop, path, [m.serviceName]);
      if c.ComposeOk? then Returned((), Said(st1, StoppedLine(s)))
      else Raised(StartFailed(s, c.error.message), st1)
  }

  /** `stopContainerByPort`: stops the first container publishing the
      port, if there is one. */
  function StopByPort(w: World, st: State, port: int): (r: State)
    ensures r.config == st.config && r.tmux == st.tmux && r.log == st.log
    ensures StopContainerByPort(w.containers, port).None? ==> r == st
    ensures StopContainerByPort(w.containers, port).Some? ==>
      r.effects == st.effects + [StoppedContainer(StopContainerByPort(w.containers, port).value)]
  {
    match StopContainerByPort(w.containers, port)
    case Some(id) => Did(st, StoppedContainer(id))
    case None => st
  }

  const LambdaStopNotImplemented := "Stopping lambdas running in localstack is not implemented yet"

  function UnknownRuntime(runtime: Option<string>, name: string): string {
    "Unknown runtime \"" + runtime.GetOr("undefined") + "\" configured for service " + name
  }

  /** The runtime branch of `stopService`, on the service's own runtime.
      It never writes the store; under tmux it never throws and only the
      window kill touches the server; under docker the server is left
      alone. */
  function StopOnRuntime(w: World, st: State, s: Service, name: string): (r: Outcome<()>)
    ensures s.runtime == Some("tmux") ==> r == StopTmux(w, st, s)
    ensures s.runtime == Some("docker") ==> r == StopDocker(w, st, s)
    ensures s.runtime != Some("tmux") && s.runtime != Some("docker") ==> r == Raised(UnknownRuntime(s.runtime, name), st)
    ensures r.state.config == st.config
    ensures s.runtime == Some("tmux") ==>
      r.Returned? && r.state.tmux == Tmux.KillWindow(st.tmux, w.tmuxFaults, TypeName(s.serviceType), WindowName(s)).state
    ensures s.runtime == Some("docker") ==> r.state.tmux == st.tmux
  {
    if s.runtime == Some("tmux") then StopTmux(w, st, s)
    else if s.runtime == Some("docker") then StopDocker(w, st, s)
    else Raised(UnknownRuntime(s.runtime, name), st)
  }

  /** `stopService(name)`. A lambda with a port has its container stopped
      and still goes on to the runtime branch. */
  function StopService(w: World, st: State, name: string): (r: Outcome<()>)
    ensures r.state.config == st.config
    ensures FindService(st.config.services, name).None? ==> r == Raised(UnknownService(name), st)
    ensures FindService(st.config.services, name).Some? ==>
      var s := Probed(st, name);
      if s.serviceType == DockerComposeService then r == StopCompose(w, st, s)
      else if s.serviceType == Lambda && !HasPort(s) then r == Raised(LambdaStopNotImplemented, st)
      else if s.serviceType == Lambda then r == StopOnRuntime(w, StopByPort(w, st, s.port.value), s, name)
      else r == StopOnRuntime(w, st, s, name)
  {
    match FindService(st.config.services, name)
    case None => Raised(UnknownService(name), st)
    case Some(i) =>
      var s := st.config.services[i];
      if s.serviceType == DockerComposeService then StopCompose(w, st, s)
      else if s.serviceType == Lambda && !HasPort(s) then Raised(LambdaStopNotImplemented, st)
      else if s.serviceType == Lambda then StopOnRuntime(w, StopByPort(w, st, s.port.value), s, name)
      else StopOnRuntime(w, st, s, name)
  }

  function StopStep(w: World): (State, string) -> Outcome<()> {
    (s: State, n: string) => StopService(w, s, n)
  }

  /** `stop(names)`: when the first name is `all` every stored service is
      stopped by name, in store order, and the other names are ignored;
      otherwise the names are stopped in the order given. It never writes
      the store, whatever it stops or throws; a stop that returned found
      every name it was given, and no names stop nothing. */
  function Stop(w: World, st: State, names: seq<string>): (r: Outcome<()>)
    ensures |names| > 0 && names[0] == "all" ==> r == ForEach(st, ServiceNames(st.config.services), StopStep(w))
    ensures !(|names| > 0 && names[0] == "all") ==> r == ForEach(st, names, StopStep(w))
    ensures r.state.config == st.config
    ensures r.Returned? && !(|names| > 0 && names[0] == "all") ==>
      forall k :: 0 <= k < |names| ==> FindService(st.config.services, names[k]).Some?
    ensures |names| == 0 ==> r == Returned((), st)
  {
    ForEachKeepsConfig(st, ServiceNames(st.config.services), StopStep(w));
    ForEachKeepsConfig(st, names, StopStep(w));
    ForEachReturnedAccepts(st, names, StopStep(w), (x: string) => FindService(st.config.services, x).Some?,
                           (s: State) => s.config == st.config);
    if |names| > 0 && names[0] == "all" then ForEach(st, ServiceNames(st.config.services), StopStep(w))
    else ForEach(st, names, StopStep(w))
  }

  /** A loop whose every step keeps the store keeps it. */
  lemma {:induction false} ForEachKeepsConfig(st: State, xs: seq<string>, f: (State, string) -> Outcome<()>)
    requires forall s: State, x: string :: f(s, x).state.config == s.config
    ensures ForEach(st, xs, f).state.config == st.config
    decreases |xs|
  {
    if |xs| > 0 {
      match f(st, xs[0])
      case Raised(_, _) =>
      case Returned(_, st1) => ForEachKeepsConfig(st1, xs[1..], f);
    }
  }

  /** Stopping a one-name list that is not `all` is stopping that name. */
  lemma StopOneName(w: World, st: State, name: string)
    requires name != "all"
    ensures Stop(w, st, [name]) == StopService(w, st, name)
  {
    ForEachSingle(st, name, StopStep(w));
  }

  // ---------------------------------------------------------------------
  // restart
  // ---------------------------------------------------------------------

  /** `restart(name)` as written: `stop` is handed the name itself, so its
      loop visits the name's characters, each as a service name of its
      own; `start` runs only when all of them stopped. The store only gains
      start records, and a restart that returned found a service for every
      single character of the name. */
  function RestartOne(w: World, st: State, name: string): (r: Outcome<()>)
    ensures OnlyRecords(w, st.config, r.state.config)
    ensures r.Returned? ==> forall k :: 0 <= k < |name| ==> FindService(st.config.services, [name[k]]).Some?
    ensures Stop(w, st, Chars(name)).Raised? ==> r == Stop(w, st, Chars(name))
    ensures Stop(w, st, Chars(name)).Returned? ==> r == StartOne(w, Stop(w, st, Chars(name)).state, name)
  {
    KeptOnlyRecords(w, st.config);
    StartOneOnlyRecords(w, Stop(w, st, Chars(name)).state, name);
    assert |name| > 0 ==> Chars(name)[0] != "all";
    match Stop(w, st, Chars(name))
    case Raised(m, st1) => Raised(m, st1)
    case Returned(_, st1) => StartOne(w, st1, name)
  }

  lemma RestartOneStepsOnlyRecord(w: World)
    ensures forall s: State, x: string :: OnlyRecords(w, s.config, RestartOne(w, s, x).state.config)
  {
  }

  /** `restart`: `all` restarts every stored service by name, in store
      order, and the first throw aborts the rest. The store only gains
      start records; `all` over an empty store does nothing, and a single
      restart that returned found a service for each character of the
      name. */
  function Restart(w: World, st: State, name: string): (r: Outcome<()>)
    ensures name == "all" ==> r == ForEach(st, ServiceNames(st.config.services), (s: State, n: string) => RestartOne(w, s, n))
    ensures name != "all" ==> r == RestartOne(w, st, name)
    ensures OnlyRecords(w, st.config, r.state.config)
    ensures name == "all" && |st.config.services| == 0 ==> r == Returned((), st)
    ensures name != "all" && r.Returned? ==>
      forall k :: 0 <= k < |name| ==> FindService(st.config.services, [name[k]]).Some?
  {
    RestartOneStepsOnlyRecord(w);
    ForEachOnlyRecords(w, st, ServiceNames(st.config.services), (s: State, n: string) => RestartOne(w, s, n));
    if name == "all" then ForEach(st, ServiceNames(st.config.services), (s: State, n: string) => RestartOne(w, s, n))
    else RestartOne(w, st, name)
  }

  /** The mismatch shown: restarting `api` when no service answers to the
      one-letter name `a` throws "Service with the name a does not exist"
      before anything is stopped or started. */
  lemma RestartStopsCharacters(w: World, st: State, name: string)
    requires name != "all" && |name| >= 1
    requires FindService(st.config.services, [name[0]]).None?
    ensures Restart(w, st, name) == Raised(UnknownService([name[0]]), st)
  {
    var cs := Chars(name);
    assert cs[0] == [name[0]];
    assert |cs[0]| == 1;
    assert cs[0] != "all";
    FirstThrowAborts(st, cs, StopStep(w));
  }

  /** `restart(name)` with `stop` handed `[name]`. The store only gains
      start records, and an unknown name throws before anything is done. */
  function RestartOneIntended(w: World, st: State, name: string): (r: Outcome<()>)
    ensures OnlyRecords(w, st.config, r.state.config)
    ensures name != "all" && FindService(st.config.services, name).None? ==> r == Raised(UnknownService(name), st)
    ensures Stop(w, st, [name]).Raised? ==> r == Stop(w, st, [name])
    ensures Stop(w, st, [name]).Returned? ==> r == StartOne(w, Stop(w, st, [name]).state, name)
  {
    KeptOnlyRecords(w, st.config);
    StartOneOnlyRecords(w, Stop(w, st, [name]).state, name);
    StopOneNameUnlessAll(w, st, name);
    match Stop(w, st, [name])
    case Raised(m, st1) => Raised(m, st1)
    case Returned(_, st1) => StartOne(w, st1, name)
  }

  /** Stopping `[name]` for any name but `all` is one `stopService`. */
  lemma StopOneNameUnlessAll(w: World, st: State, name: string)
    ensures name != "all" ==> Stop(w, st, [name]) == StopService(w, st, name)
  {
    if name != "all" {
      StopOneName(w, st, name);
    }
  }

  lemma RestartOneIntendedStepsOnlyRecord(w: World)
    ensures forall s: State, x: string :: OnlyRecords(w, s.config, RestartOneIntended(w, s, x).state.config)
  {
  }

  /** The corrected `restart`: the store only gains start records, an
      unknown name throws before anything is done, and `all` over an empty
      store does nothing. */
  function RestartIntended(w: World, st: State, name: string): (r: Outcome<()>)
    ensures name == "all" ==> r == ForEach(st, ServiceNames(st.config.services), (s: State, n: string) => RestartOneIntended(w, s, n))
    ensures name != "all" ==> r == RestartOneIntended(w, st, name)
    ensures OnlyRecords(w, st.config, r.state.config)
    ensures name != "all" && FindService(st.config.services, name).None? ==> r == Raised(UnknownService(name), st)
    ensures name == "all" && |st.config.services| == 0 ==> r == Returned((), st)
  {
    RestartOneIntendedStepsOnlyRecord(w);
    ForEachOnlyRecords(w, st, ServiceNames(st.config.services), (s: State, n: string) => RestartOneIntended(w, s, n));
    if name == "all" then ForEach(st, ServiceNames(st.config.services), (s: State, n: string) => RestartOneIntended(w, s, n))
    else RestartOneIntended(w, st, name)
  }

  /** The intended restart stops exactly the named service, then starts it
      from the state the stop left; a stop that throws means no start. */
  lemma RestartIntendedStopsThenStarts(w: World, st: State, name: string)
    requires name != "all"
    ensures StopService(w, st, name).Raised? ==> RestartIntended(w, st, name) == StopService(w, st, name)
    ensures StopService(w, st, name).Returned? ==>
      RestartIntended(w, st, name) == StartOne(w, StopService(w, st, name).state, name)
  {
    StopOneName(w, st, name);
  }

  // ---------------------------------------------------------------------
  // groups
  // ---------------------------------------------------------------------

  lemma StartStepsOnlyRecord(w: World)
    ensures forall s: State, x: string :: OnlyRecords(w, s.config, Start(w, s, x).state.config)
  {
  }

  /** Group `start`: each member is started, in the group's order, with
      the full `start` (a member `all` starts everything); the first throw
      aborts the rest. The store only gains start records; an empty group
      does nothing, and a group start that returned found a service for
      every member not named `all`. */
  function GroupStart(w: World, st: State, group: string): (r: Outcome<()>)
    ensures FindGroup(st.config.serviceGroups, group).None? ==> r == Raised(UnknownGroup(group), st)
    ensures FindGroup(st.config.serviceGroups, group).Some? ==>
      r == ForEach(st, st.config.serviceGroups[FindGroup(st.config.serviceGroups, group).value].services,
                   (s: State, n: string) => Start(w, s, n))
    ensures OnlyRecords(w, st.config, r.state.config)
    ensures FindGroup(st.config.serviceGroups, group).Some? &&
            |st.config.serviceGroups[FindGroup(st.config.serviceGroups, group).value].services| == 0 ==>
      r == Returned((), st)
    ensures FindGroup(st.config.serviceGroups, group).Some? && r.Returned? ==>
      var members := st.config.serviceGroups[FindGroup(st.config.serviceGroups, group).value].services;
      forall k :: 0 <= k < |members| ==> members[k] == "all" || FindService(st.config.services, members[k]).Some?
  {
    KeptOnlyRecords(w, st.config);
    StartStepsOnlyRecord(w);
    match FindGroup(st.config.serviceGroups, group)
    case None => Raised(UnknownGroup(group), st)
    case Some(i) =>
      var members := st.config.serviceGroups[i].services;
      ForEachOnlyRecords(w, st, members, (s: State, n: string) => Start(w, s, n));
      ForEachReturnedAccepts(st, members, (s: State, n: string) => Start(w, s, n),
                             (x: string) => x == "all" || FindService(st.config.services, x).Some?,
                             (s: State) => s.config.services == st.config.services);
      ForEach(st, members, (s: State, n: string) => Start(w, s, n))
  }

  /** The first throw aborts the rest of a group start: a first member
      other than `all` that names no service throws "Service with the name
      <member> does not exist" and nothing is started. */
  lemma GroupStartUnknownFirstAborts(w: World, st: State, group: string)
    requires FindGroup(st.config.serviceGroups, group).Some?
    requires var members := st.config.serviceGroups[FindGroup(st.config.serviceGroups, group).value].services;
      |members| > 0 && members[0] != "all" && FindService(st.config.services, members[0]).None?
    ensures var members := st.config.serviceGroups[FindGroup(st.config.serviceGroups, group).value].services;
      GroupStart(w, st, group) == Raised(UnknownService(members[0]), st)
  {
    var members := st.config.serviceGroups[FindGroup(st.config.serviceGroups, group).value].services;
    FirstThrowAborts(st, members, (s: State, n: string) => Start(w, s, n));
  }

  /** Group `stop` as written: each member name is handed to `stop` as is,
      so `stop` visits its characters. It never writes the store, and an
      empty group does nothing. */
  function GroupStop(w: World, st: State, group: string): (r: Outcome<()>)
    ensures FindGroup(st.config.serviceGroups, group).None? ==> r == Raised(UnknownGroup(group), st)
    ensures FindGroup(st.config.serviceGroups, group).Some? ==>
      r == ForEach(st, st.config.serviceGroups[FindGroup(st.config.serviceGroups, group).value].services,
                   (s: State, n: string) => Stop(w, s, Chars(n)))
    ensures r.state.config == st.config
    ensures FindGroup(st.config.serviceGroups, group).Some? &&
            |st.config.serviceGroups[FindGroup(st.config.serviceGroups, group).value].services| == 0 ==>
      r == Returned((), st)
  {
    match FindGroup(st.config.serviceGroups, group)
    case None => Raised(UnknownGroup(group), st)
    case Some(i) =>
      ForEachKeepsConfig(st, st.config.serviceGroups[i].services, (s: State, n: string) => Stop(w, s, Chars(n)));
      ForEach(st, st.config.serviceGroups[i].services, (s: State, n: string) => Stop(w, s, Chars(n)))
  }

  /** The mismatch shown: a group whose first member has a first letter no
      service answers to throws at that letter, and nothing is stopped. */
  lemma GroupStopStopsCharacters(w: World, st: State, group: string)
    requires FindGroup(st.config.serviceGroups, group).Some?
    requires var members := st.config.serviceGroups[FindGroup(st.config.serviceGroups, group).value].services;
      |members| > 0 && |members[0]| >= 1 && FindService(st.config.services, [members[0][0]]).None?
    ensures var members := st.config.serviceGroups[FindGroup(st.config.serviceGroups, group).value].services;
      GroupStop(w, st, group) == Raised(UnknownService([members[0][0]]), st)
  {
    var members := st.config.serviceGroups[FindGroup(st.config.serviceGroups, group).value].services;
    var m := members[0];
    var cs := Chars(m);
    assert cs[0] == [m[0]] && |cs[0]| == 1 && cs[0] != "all";
    FirstThrowAborts(st, cs, StopStep(w));
    FirstThrowAborts(st, members, (s: State, n: string) => Stop(w, s, Chars(n)));
  }

  /** Group `stop` with each member handed to `stop` as `[member]`. It
      never writes the store, an empty group does nothing, and a group stop
      that returned found a service for every member not named `all`. */
  function GroupStopIntended(w: World, st: State, group: string): (r: Outcome<()>)
    ensures FindGroup(st.config.serviceGroups, group).None? ==> r == Raised(UnknownGroup(group), st)
    ensures FindGroup(st.config.serviceGroups, group).Some? ==>
      r == ForEach(st, st.config.serviceGroups[FindGroup(st.config.serviceGroups, group).value].services,
                   (s: State, n: string) => Stop(w, s, [n]))
    ensures r.state.config == st.config
    ensures FindGroup(st.config.serviceGroups, group).Some? &&
            |st.config.serviceGroups[FindGroup(st.config.serviceGroups, group).value].services| == 0 ==>
      r == Returned((), st)
    ensures FindGroup(st.config.serviceGroups, group).Some? && r.Returned? ==>
      var members := st.config.serviceGroups[FindGroup(st.config.serviceGroups, group).value].services;
      forall k :: 0 <= k < |members| ==> members[k] == "all" || FindService(st.config.services, members[k]).Some?
  {
    match FindGroup(st.config.serviceGroups, group)
    case None => Raised(UnknownGroup(group), st)
    case Some(i) =>
      var members := st.config.serviceGroups[i].services;
      ForEachKeepsConfig(st, members, (s: State, n: string) => Stop(w, s, [n]));
      StopOneStepAccepts(w);
      ForEachReturnedAccepts(st, members, (s: State, n: string) => Stop(w, s, [n]),
                             (x: string) => x == "all" || FindService(st.config.services, x).Some?,
                             (s: State) => s.config == st.config);
      ForEach(st, members, (s: State, n: string) => Stop(w, s, [n]))
  }

  /** A stop of one name other than `all` that returned found it. */
  lemma StopOneStepAccepts(w: World)
    ensures forall s: State, x: string :: Stop(w, s, [x]).Returned? && x != "all" ==>
      FindService(s.config.services, x).Some?
  {
    forall s: State, x: string | Stop(w, s, [x]).Returned? && x != "all"
      ensures FindService(s.config.services, x).Some?
    {
      assert [x][0] == x;
    }
  }

  /** With no member named `all`, the intended group stop stops exactly
      the members, once each, in order: it is the plain stop loop over
      them. */
  lemma {:induction false} GroupStopIntendedStopsMembers(w: World, st: State, members: seq<string>)
    requires forall i :: 0 <= i < |members| ==> members[i] != "all"
    ensures ForEach(st, members, (s: State, n: string) => Stop(w, s, [n])) == ForEach(st, members, StopStep(w))
    decreases |members|
  {
    if |members| > 0 {
      StopOneName(w, st, members[0]);
      match StopService(w, st, members[0])
      case Raised(_, _) =>
      case Returned(_, st1) => GroupStopIntendedStopsMembers(w, st1, members[1..]);
    }
  }
}
