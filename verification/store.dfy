/** The persisted configuration of src/utils/store.ts: its record shapes,
    the four service types, the per-key validators of `config set`, the
    defaults, and the lookup every lifecycle command shares. */
module Store {
  import opened JsStrings
  import opened Outcomes

  datatype ServiceType = BackendService | FrontendService | DockerComposeService | Lambda

  /** `SERVICE_TYPES`, in declaration order. */
  const ServiceTypeNames: seq<string> :=
    ["backend_service", "frontend_service", "docker_compose_service", "lambda"]

  /** The stored spelling of a type; it doubles as the tmux session name. */
  function TypeName(t: ServiceType): (r: string)
    ensures r in ServiceTypeNames
  {
    match t
    case BackendService => "backend_service"
    case FrontendService => "frontend_service"
    case DockerComposeService => "docker_compose_service"
    case Lambda => "lambda"
  }

  /** Reads a stored spelling back; anything outside `SERVICE_TYPES` is not
      a type. */
  function ParseType(s: string): (r: Option<ServiceType>)
    ensures r.Some? <==> s in ServiceTypeNames
    ensures r.Some? ==> TypeName(r.value) == s
  {
    if s == "backend_service" then Some(BackendService)
    else if s == "frontend_service" then Some(FrontendService)
    else if s == "docker_compose_service" then Some(DockerComposeService)
    else if s == "lambda" then Some(Lambda)
    else None
  }

  /** The spellings are distinct: there are exactly four types and each
      reads back as itself. */
  lemma TypeNamesRoundTrip(t: ServiceType)
    ensures ParseType(TypeName(t)) == Some(t)
    ensures |ServiceTypeNames| == 4 && UniqueStrings(ServiceTypeNames)
  {
  }

  predicate UniqueStrings(xs: seq<string>) {
    forall i, j :: 0 <= i < j < |xs| ==> xs[i] != xs[j]
  }

  /** A stored service. `port` is `None` when unset; `runtime` is written by
      `addService` although the declared record type lacks it. */
  datatype Service = Service(
    name: string,
    serviceType: ServiceType,
    repository: string,
    runCommand: Option<string>,
    alias: Option<string>,
    port: Option<int>,
    expectedSecondsToStart: Option<int>,
    runtime: Option<string>)

  /** `if (service.port)`: set and non-zero. */
  predicate HasPort(s: Service) {
    s.port.Some? && s.port.value != 0
  }

  /** `service.alias ?? service.name`: the tmux window of a service. */
  function WindowName(s: Service): string {
    s.alias.GetOr(s.name)
  }

  datatype StartedService = StartedService(service: Service, startedAt: int)

  datatype ServiceGroup = ServiceGroup(name: string, services: seq<string>)

  datatype Package = Package(name: string, repository: string)

  /** The whole store. `runtime` is a free string: the code has a branch for
      values other than `tmux` and `docker`. */
  datatype Config = Config(
    runtime: string,
    repositoryDirectory: string,
    services: seq<Service>,
    startedServices: seq<StartedService>,
    serviceGroups: seq<ServiceGroup>,
    packages: seq<Package>)

  /** The defaults; `REPO_DIR` from the environment is an input. */
  function Defaults(repoDirEnv: Option<string>): (c: Config)
    ensures c.runtime == "tmux" && c.repositoryDirectory == repoDirEnv.GetOr("~/repos")
    ensures c.services == [] && c.startedServices == [] && c.serviceGroups == [] && c.packages == []
  {
    Config("tmux", repoDirEnv.GetOr("~/repos"), [], [], [], [])
  }

  /** The keys `configValidators` declares, in declaration order. */
  datatype ConfigKey = RuntimeKey | RepositoryDirectoryKey | StartedServicesKey
                     | ServicesKey | ServiceGroupsKey | PackagesKey

  function KeyName(k: ConfigKey): string {
    match k
    case RuntimeKey => "runtime"
    case RepositoryDirectoryKey => "repositoryDirectory"
    case StartedServicesKey => "startedServices"
    case ServicesKey => "services"
    case ServiceGroupsKey => "serviceGroups"
    case PackagesKey => "packages"
  }

  /** A key given on the command line, if it names a validator. */
  function ParseKey(s: string): (r: Option<ConfigKey>)
    ensures r.Some? ==> KeyName(r.value) == s
    ensures r.None? ==> forall k: ConfigKey :: KeyName(k) != s
  {
    if s == "runtime" then Some(RuntimeKey)
    else if s == "repositoryDirectory" then Some(RepositoryDirectoryKey)
    else if s == "startedServices" then Some(StartedServicesKey)
    else if s == "services" then Some(ServicesKey)
    else if s == "serviceGroups" then Some(ServiceGroupsKey)
    else if s == "packages" then Some(PackagesKey)
    else None
  }

  /** `configValidators[key](value)`; whether a path is an existing
      directory is an oracle. */
  predicate Validate(isDirectory: string -> bool, key: ConfigKey, value: string) {
    match key
    case RuntimeKey => value in ["tmux", "docker"]
    case RepositoryDirectoryKey => isDirectory(value)
    case _ => false
  }

  /** Only `tmux` and `docker` are runtimes; list-valued keys reject every
      string. */
  lemma ValidatorsAsDeclared(isDirectory: string -> bool, key: ConfigKey, value: string)
    ensures key == RuntimeKey ==> (Validate(isDirectory, key, value) <==> value == "tmux" || value == "docker")
    ensures key in {StartedServicesKey, ServicesKey, ServiceGroupsKey, PackagesKey} ==>
      !Validate(isDirectory, key, value)
  {
  }

  /** `[s.name, s.alias].includes(x)`: an unset alias never matches. */
  predicate Answers(s: Service, x: string) {
    s.name == x || s.alias == Some(x)
  }

  /** `services.find(...)`: the first service answering to `x`. */
  function FindService(services: seq<Service>, x: string): (r: Option<nat>)
    ensures r.None? <==> forall i :: 0 <= i < |services| ==> !Answers(services[i], x)
    ensures r.Some? ==> r.value < |services| && Answers(services[r.value], x)
    ensures r.Some? ==> forall i :: 0 <= i < r.value ==> !Answers(services[i], x)
    decreases |services|
  {
    if |services| == 0 then None
    else if Answers(services[0], x) then Some(0)
    else
      match FindService(services[1..], x)
      case Some(i) => Some(i + 1)
      case None => None
  }

  /** The names of the stored services, in store order. */
  function ServiceNames(services: seq<Service>): (r: seq<string>)
    ensures |r| == |services|
    ensures forall i :: 0 <= i < |services| ==> r[i] == services[i].name
  {
    seq(|services|, i requires 0 <= i < |services| => services[i].name)
  }

  /** `serviceGroups.find((g) => g.name === name)`. */
  function FindGroup(groups: seq<ServiceGroup>, name: string): (r: Option<nat>)
    ensures r.None? <==> forall i :: 0 <= i < |groups| ==> groups[i].name != name
    ensures r.Some? ==> r.value < |groups| && groups[r.value].name == name
    ensures r.Some? ==> forall i :: 0 <= i < r.value ==> groups[i].name != name
    decreases |groups|
  {
    if |groups| == 0 then None
    else if groups[0].name == name then Some(0)
    else
      match FindGroup(groups[1..], name)
      case Some(i) => Some(i + 1)
      case None => None
  }

  function UnknownGroup(name: string): string {
    "Service group with the name \"" + name + "\" does not exist"
  }

  /** `path.join(a, b)` as the two segments glued with one `/`: the
      normalisation `path.join` also applies (a doubled `/`, `.` and `..`
      segments, an empty segment) is not modelled. The join splits back
      into its two segments at the glue. */
  function PathJoin(a: string, b: string): (r: string)
    ensures |r| == |a| + 1 + |b|
    ensures r[..|a|] == a && r[|a|] == '/' && r[|a| + 1..] == b
  {
    a + "/" + b
  }
}
