/** `montra config set <key> <value>` (src/commands/config.ts): an unknown
    key, an invalid value and a runtime change while services run are
    refused; a value equal to the stored one is reported and not written. */
module ConfigSet {
  import opened JsStrings
  import opened Outcomes
  import opened Store
  import opened World
  import opened Status

  /** `store.get(key)` compared with a string: only the two string-valued
      keys can equal one; the list-valued keys never do. */
  function Current(config: Config, key: ConfigKey): Option<string> {
    match key
    case RuntimeKey => Some(config.runtime)
    case RepositoryDirectoryKey => Some(config.repositoryDirectory)
    case _ => None
  }

  /** `store.set(key, value)` for a key whose validator can accept a
      string. */
  function Assign(config: Config, key: ConfigKey, value: string): (r: Config)
    requires key == RuntimeKey || key == RepositoryDirectoryKey
    ensures Current(r, key) == Some(value)
    ensures key == RuntimeKey ==> r == config.(runtime := value)
    ensures key == RepositoryDirectoryKey ==> r == config.(repositoryDirectory := value)
  {
    if key == RuntimeKey then config.(runtime := value) else config.(repositoryDirectory := value)
  }

  const NotStopped := "One or more services are not stopped. Cannot in good faith change runtime with running services."

  /** One step of the runtime guard: the service's status must be
      STOPPED; a status that throws rethrows. */
  function GuardStep(w: World): (State, string) -> Outcome<()> {
    (s: State, n: string) =>
      match GetServiceStatus(w, s, n)
      case Raised(m, s1) => Raised(m, s1)
      case Returned(v, s1) => if v != Stopped then Raised(NotStopped, s1) else Returned((), s1)
  }

  /** The service a name finds reads as STOPPED in `st`. */
  predicate IsStopped(w: World, st: State, name: string) {
    GetServiceStatus(w, st, name).Returned? && GetServiceStatus(w, st, name).value == Stopped
  }

  /** Every name reads as STOPPED in `st`. */
  predicate AllStopped(w: World, st: State, names: seq<string>) {
    forall k :: 0 <= k < |names| ==> IsStopped(w, st, names[k])
  }

  /** Where the store and the tmux server are those of `st`, a guard step
      passes exactly on a name that reads as STOPPED in `st`, and keeps
      both. */
  lemma GuardStepAgainst(w: World, st: State, s: State, n: string)
    requires s.config == st.config && s.tmux.server == st.tmux.server
    ensures GuardStep(w)(s, n).Returned? <==> IsStopped(w, st, n)
    ensures GuardStep(w)(s, n).state.config == st.config && GuardStep(w)(s, n).state.tmux.server == st.tmux.server
  {
    StatusIgnoresHistory(w, st, s, n);
  }

  /** The guard passes exactly when every name reads as STOPPED, judged
      on the state the command started from: the probes before a name do
      not change its status. It never writes the store. */
  lemma GuardPassesIffAllStopped(w: World, st: State, names: seq<string>)
    ensures ForEach(st, names, GuardStep(w)).Returned? <==> AllStopped(w, st, names)
    ensures ForEach(st, names, GuardStep(w)).state.config == st.config
  {
    var inv := (s: State) => s.config == st.config && s.tmux.server == st.tmux.server;
    var ok := (n: string) => IsStopped(w, st, n);
    forall s: State, x: string | inv(s)
      ensures (GuardStep(w)(s, x).Returned? <==> ok(x)) && inv(GuardStep(w)(s, x).state)
    {
      GuardStepAgainst(w, st, s, x);
    }
    ForEachPassesIff(st, names, GuardStep(w), ok, inv);
  }

  function ConfirmLine(key: string, value: string): Log {
    Info("✅ Config \"" + key + "\" set to \"" + value + "\"")
  }

  function AlreadyLine(key: string, value: string): Log {
    Info("ℹ️ \"" + key + "\" already has value \"" + value + "\"")
  }

  /** The command. Only the store and the log are touched, apart from the
      status probes of a runtime change: any other key runs no probe. A new,
      valid repository directory is written and confirmed. */
  function Set(w: World, st: State, key: string, value: string): (r: Outcome<()>)
    ensures ParseKey(key).None? ==> r == Raised("No such config key: " + key, st)
    ensures ParseKey(key).Some? && Current(st.config, ParseKey(key).value) == Some(value) ==>
      r == Returned((), Said(st, AlreadyLine(key, value)))
    ensures ParseKey(key).Some? && Current(st.config, ParseKey(key).value) != Some(value) &&
            !Validate(w.isDirectory, ParseKey(key).value, value) ==>
      r == Raised("Invalid value \"" + value + "\" for key \"" + key + "\"", st)
    ensures r.Raised? ==> r.state.config == st.config
    ensures r.Returned? ==> (r.state.config == st.config ||
      (ParseKey(key).Some? && (ParseKey(key).value == RuntimeKey || ParseKey(key).value == RepositoryDirectoryKey) &&
       r.state.config == Assign(st.config, ParseKey(key).value, value)))
    ensures ParseKey(key) == Some(RepositoryDirectoryKey) &&
            Current(st.config, RepositoryDirectoryKey) != Some(value) &&
            Validate(w.isDirectory, RepositoryDirectoryKey, value) ==>
      r == Returned((), Said(st.(config := Assign(st.config, RepositoryDirectoryKey, value)), ConfirmLine(key, value)))
    ensures ParseKey(key) != Some(RuntimeKey) ==> r.state.effects == st.effects && r.state.tmux == st.tmux
  {
    match ParseKey(key)
    case None => Raised("No such config key: " + key, st)
    case Some(k) =>
      if Current(st.config, k) == Some(value) then Returned((), Said(st, AlreadyLine(key, value)))
      else if !Validate(w.isDirectory, k, value) then
        Raised("Invalid value \"" + value + "\" for key \"" + key + "\"", st)
      else
        assert k == RuntimeKey || k == RepositoryDirectoryKey;
        var guard := if k == RuntimeKey then ForEach(st, ServiceNames(st.config.services), GuardStep(w))
                     else Returned((), st);
        GuardPassesIffAllStopped(w, st, ServiceNames(st.config.services));
        match guard
        case Raised(m, st1) => Raised(m, st1)
        case Returned(_, st1) =>
          Returned((), Said(st1.(config := Assign(st1.config, k, value)), ConfirmLine(key, value)))
  }

  /** A runtime change happens exactly when the value is a runtime other
      than the current one and every stored service reads as STOPPED. */
  lemma RuntimeChangeIffAllStopped(w: World, st: State, value: string)
    ensures Set(w, st, "runtime", value).Returned? && Set(w, st, "runtime", value).state.config.runtime != st.config.runtime
      <==> value in ["tmux", "docker"] && value != st.config.runtime && AllStopped(w, st, ServiceNames(st.config.services))
    ensures Set(w, st, "runtime", value).Returned? && Set(w, st, "runtime", value).state.config.runtime != st.config.runtime ==>
      Set(w, st, "runtime", value).state.config == st.config.(runtime := value)
  {
    GuardPassesIffAllStopped(w, st, ServiceNames(st.config.services));
  }

  /** Setting a key to the value it was just set to is reported and
      changes nothing more. */
  lemma SetIsIdempotent(w: World, st: State, key: string, value: string)
    requires Set(w, st, key, value).Returned?
    ensures var st1 := Set(w, st, key, value).state;
      ParseKey(key).Some? && (ParseKey(key).value == RuntimeKey || ParseKey(key).value == RepositoryDirectoryKey) ==>
        Set(w, st1, key, value) == Returned((), Said(st1, AlreadyLine(key, value)))
  {
    var st1 := Set(w, st, key, value).state;
    if ParseKey(key).Some? && (ParseKey(key).value == RuntimeKey || ParseKey(key).value == RepositoryDirectoryKey) {
      var k := ParseKey(key).value;
      if Current(st.config, k) != Some(value) {
        assert st1.config == Assign(st.config, k, value);
      }
    }
  }

  /** The list-valued keys cannot be set from the command line: every
      value is refused. */
  lemma ListKeysRefuseEveryValue(w: World, st: State, key: string, value: string)
    requires key in ["startedServices", "services", "serviceGroups", "packages"]
    ensures Set(w, st, key, value) == Raised("Invalid value \"" + value + "\" for key \"" + key + "\"", st)
  {
  }
}
