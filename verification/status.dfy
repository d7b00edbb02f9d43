/** `getServiceStatus` of src/commands/service/status.ts: a service with a
    port is RUNNING when its liveness probe answers or something listens
    on the port; a service without one can only be seen through its
    runtime, as an existing session. */
module Status {
  import opened JsStrings
  import opened Outcomes
  import opened Store
  import opened Tmux
  import opened Docker
  import opened World

  datatype ServiceStatus = Running | Stopped | SessionExists

  /** The yq query reading the liveness path out of the deployment
      manifest of the service's repository. */
  function ManifestLine(repoDir: string, s: Service): string {
    "yq 'select(.kind == \"Deployment\") | .spec.template.spec.containers[0].livenessProbe.httpGet.path' "
    + PathJoin(repoDir, s.repository) + "/deployment/production/" + s.repository + ".yaml"
  }

  function CurlLine(port: int, probePath: string): string {
    "curl --fail --silent --output /dev/null --max-time 10 http://localhost:" + IntToString(port) + Trim(probePath)
  }

  function LsofLine(port: int): string {
    "lsof -n -i :" + IntToString(port) + " | grep LISTEN"
  }

  /** `checkLivenessProbe`: the manifest query is run; only when it
      succeeds is the HTTP request run, to the trimmed path it printed. */
  function LivenessProbe(w: World, st: State, s: Service, port: int): (r: (bool, State))
    ensures var m := Execute(w.run(ManifestLine(st.config.repositoryDirectory, s)));
      && (r.0 <==> m.ExecOk? && Execute(w.run(CurlLine(port, m.stdout))).ExecOk?)
      && r.1.effects == st.effects + [Ran(ManifestLine(st.config.repositoryDirectory, s))]
           + (if m.ExecOk? then [Ran(CurlLine(port, m.stdout))] else [])
      && r.1.config == st.config && r.1.tmux == st.tmux
  {
    var manifest := ManifestLine(st.config.repositoryDirectory, s);
    var st1 := Did(st, Ran(manifest));
    match Execute(w.run(manifest))
    case ExecFailed(_) => (false, st1)
    case ExecOk(out, _) =>
      var curl := CurlLine(port, out);
      (Execute(w.run(curl)).ExecOk?, Did(st1, Ran(curl)))
  }

  /** `checkServiceSessionExists`, dispatched on the global runtime. Under
      tmux: the window list of session `type` holds the service's name
      (not its alias), a failed listing counting as no. Under docker: some
      active container name contains the name; a container without a name
      makes the listing throw. Any other runtime throws. */
  function SessionCheck(w: World, st: State, s: Service): (r: Outcome<bool>)
    ensures r.state.config == st.config && r.state.tmux.server == st.tmux.server
    ensures st.config.runtime == "tmux" ==> r.Returned?
    ensures st.config.runtime == "tmux" ==>
      (r.value <==> ListWindows(st.tmux, w.tmuxFaults, TypeName(s.serviceType)).result.Ok? &&
                    s.name in ListWindows(st.tmux, w.tmuxFaults, TypeName(s.serviceType)).result.data)
    ensures st.config.runtime == "docker" ==>
      (r.Returned? <==> ActiveContainers(w.containers).Some?) &&
      (r.Returned? ==> (r.value <==> exists k :: 0 <= k < |ActiveContainers(w.containers).value| &&
                                      Contains(ActiveContainers(w.containers).value[k], s.name)))
    ensures st.config.runtime != "tmux" && st.config.runtime != "docker" ==>
      r == Raised("Invalid runtime \"" + st.config.runtime + "\" specified in config", st)
  {
    if st.config.runtime == "tmux" then
      var listing := ListWindows(st.tmux, w.tmuxFaults, TypeName(s.serviceType));
      Returned(listing.result.Ok? && s.name in listing.result.data, st.(tmux := listing.state))
    else if st.config.runtime == "docker" then
      match ActiveContainers(w.containers)
      case None => Raised("Cannot read properties of undefined (reading 'startsWith')", st)
      case Some(names) => Returned(AnyContains(names, s.name), st)
    else Raised("Invalid runtime \"" + st.config.runtime + "\" specified in config", st)
  }

  /** `names.some((n) => n.includes(sub))`. */
  function AnyContains(names: seq<string>, sub: string): (r: bool)
    ensures r <==> exists k :: 0 <= k < |names| && Contains(names[k], sub)
    decreases |names|
  {
    if |names| == 0 then false
    else
      assert forall k :: 1 <= k < |names| ==> names[k] == names[1..][k - 1];
      Contains(names[0], sub) || AnyContains(names[1..], sub)
  }

  const UnknownServicePrefix := "Service with the name "

  function UnknownService(name: string): string {
    UnknownServicePrefix + name + " does not exist"
  }

  /** `getServiceStatus(name)`. */
  function GetServiceStatus(w: World, st: State, name: string): (r: Outcome<ServiceStatus>)
    ensures r.state.config == st.config && r.state.tmux.server == st.tmux.server
    ensures FindService(st.config.services, name).None? ==> r == Raised(UnknownService(name), st)
    ensures FindService(st.config.services, name).Some? && r.Raised? ==>
      !HasPort(Probed(st, name)) && SessionCheck(w, st, Probed(st, name)).Raised? &&
      r.message == SessionCheck(w, st, Probed(st, name)).message
  {
    match FindService(st.config.services, name)
    case None => Raised(UnknownService(name), st)
    case Some(i) =>
      var s := st.config.services[i];
      if HasPort(s) then
        var (live, st1) := LivenessProbe(w, st, s, s.port.value);
        if live then Returned(Running, st1)
        else
          var lsof := LsofLine(s.port.value);
          var st2 := Did(st1, Ran(lsof));
          match Execute(w.run(lsof))
          case ExecOk(out, _) => Returned(if out == "" then Stopped else Running, st2)
          case ExecFailed(_) => Returned(Stopped, st2)
      else
        match SessionCheck(w, st, s)
        case Raised(m, st1) => Raised(m, st1)
        case Returned(held, st1) => Returned(if held then SessionExists else Stopped, st1)
  }

  /** The service the status is about. */
  function Probed(st: State, name: string): Service
    requires FindService(st.config.services, name).Some?
  {
    st.config.services[FindService(st.config.services, name).value]
  }

  /** With a port the status is RUNNING exactly when the liveness probe
      answers or `lsof` prints a listener, STOPPED otherwise, and never
      SESSION_EXISTS; nothing is thrown. */
  lemma StatusWithPort(w: World, st: State, name: string)
    requires FindService(st.config.services, name).Some? && HasPort(Probed(st, name))
    ensures var s := Probed(st, name);
      var r := GetServiceStatus(w, st, name);
      var lsof := Execute(w.run(LsofLine(s.port.value)));
      && r.Returned? && r.value != SessionExists
      && (r.value == Running <==> LivenessProbe(w, st, s, s.port.value).0 || (lsof.ExecOk? && lsof.stdout != ""))
  {
  }

  /** Without a port the status is SESSION_EXISTS exactly when the runtime
      session check holds, STOPPED when it does not, and whatever the check
      throws otherwise; it is never RUNNING. */
  lemma StatusWithoutPort(w: World, st: State, name: string)
    requires FindService(st.config.services, name).Some? && !HasPort(Probed(st, name))
    ensures var c := SessionCheck(w, st, Probed(st, name));
      var r := GetServiceStatus(w, st, name);
      && (r.Raised? <==> c.Raised?)
      && (r.Returned? ==> r.value != Running && (r.value == SessionExists <==> c.value))
  {
  }

  /** On a well-formed tmux server whose listings answer, a port-less
      service shows SESSION_EXISTS exactly when its session has a window
      carrying its name. */
  lemma TmuxStatusReflectsServer(w: World, st: State, name: string)
    requires st.config.runtime == "tmux" && ValidServer(st.tmux.server)
    requires FindService(st.config.services, name).Some? && !HasPort(Probed(st, name))
    requires w.tmuxFaults(ListSessionsCmd).None?
    requires w.tmuxFaults(ListWindowsCmd(TypeName(Probed(st, name).serviceType))).None?
    ensures var s := Probed(st, name);
      var session := TypeName(s.serviceType);
      GetServiceStatus(w, st, name) ==
        Returned(if HasSession(st.tmux.server, session) && s.name in WindowsOf(st.tmux.server, session)
                 then SessionExists else Stopped,
                 GetServiceStatus(w, st, name).state)
  {
    var s := Probed(st, name);
    StatusWithoutPort(w, st, name);
    var listing := ListWindows(st.tmux, w.tmuxFaults, TypeName(s.serviceType));
    if !HasSession(st.tmux.server, TypeName(s.serviceType)) {
      assert listing.result.Err?;
    }
  }

  /** The status depends on the store and the tmux server only: not on the
      commands issued or the console lines written before. */
  lemma StatusIgnoresHistory(w: World, st: State, st': State, name: string)
    requires st'.config == st.config && st'.tmux.server == st.tmux.server
    ensures GetServiceStatus(w, st, name).Returned? <==> GetServiceStatus(w, st', name).Returned?
    ensures GetServiceStatus(w, st, name).Returned? ==>
      GetServiceStatus(w, st, name).value == GetServiceStatus(w, st', name).value
    ensures GetServiceStatus(w, st, name).Raised? ==>
      GetServiceStatus(w, st, name).message == GetServiceStatus(w, st', name).message
  {
    match FindService(st.config.services, name)
    case None =>
    case Some(i) =>
      var s := st.config.services[i];
      if HasPort(s) {
        LivenessIgnoresHistory(w, st, st', s, s.port.value);
      } else {
        SessionCheckIgnoresHistory(w, st, st', s);
      }
  }

  lemma LivenessIgnoresHistory(w: World, st: State, st': State, s: Service, port: int)
    requires st'.config == st.config
    ensures LivenessProbe(w, st, s, port).0 == LivenessProbe(w, st', s, port).0
  {
  }

  lemma SessionCheckIgnoresHistory(w: World, st: State, st': State, s: Service)
    requires st'.config == st.config && st'.tmux.server == st.tmux.server
    ensures SessionCheck(w, st, s).Returned? <==> SessionCheck(w, st', s).Returned?
    ensures SessionCheck(w, st, s).Returned? ==> SessionCheck(w, st, s).value == SessionCheck(w, st', s).value
    ensures SessionCheck(w, st, s).Raised? ==> SessionCheck(w, st, s).message == SessionCheck(w, st', s).message
  {
    if st.config.runtime == "tmux" {
      ListWindowsIgnoresHistory(st.tmux, st'.tmux, w.tmuxFaults, TypeName(s.serviceType));
    }
  }

  lemma ListWindowsIgnoresHistory(t: TmuxState, t': TmuxState, faults: Faults, session: string)
    requires t'.server == t.server
    ensures ListWindows(t, faults, session).result == ListWindows(t', faults, session).result
  {
  }
}
