/** The Docker helpers of src/lib/docker: container and image listings read
    from a snapshot of the daemon, the container a port stop picks, and the
    two `docker-compose` command lines with the classification of their
    outcome. */
module Docker {
  import opened JsStrings
  import opened Outcomes

  /** One published port of a container; `PublicPort` may be absent. */
  datatype PortBinding = PortBinding(publicPort: Option<int>)

  /** A running container as the daemon lists it. `ports` is absent when
      the daemon reports no `Ports` array. */
  datatype Container = Container(id: string, names: seq<string>, ports: Option<seq<PortBinding>>)

  /** An image as the daemon lists it; `RepoTags` may be absent. */
  datatype Image = Image(repoTags: Option<seq<string>>)

  /** The first name of a container, without the leading `/` the daemon
      puts there; `None` when the container has no name (reading
      `startsWith` of `undefined` throws). */
  function ContainerName(c: Container): (r: Option<string>)
    ensures r.Some? <==> |c.names| > 0
    ensures r.Some? && StartsWith(c.names[0], "/") ==> "/" + r.value == c.names[0]
    ensures r.Some? && !StartsWith(c.names[0], "/") ==> r.value == c.names[0]
  {
    if |c.names| == 0 then None
    else if StartsWith(c.names[0], "/") then Some(c.names[0][1..])
    else Some(c.names[0])
  }

  /** `getActiveContainers`: the names of the running containers, in the
      daemon's order, or `None` when one of them has no name and the call
      throws. */
  function ActiveContainers(containers: seq<Container>): (r: Option<seq<string>>)
    ensures r.Some? <==> forall i :: 0 <= i < |containers| ==> |containers[i].names| > 0
    ensures r.Some? ==> |r.value| == |containers|
    ensures r.Some? ==> forall i :: 0 <= i < |containers| ==> Some(r.value[i]) == ContainerName(containers[i])
    decreases |containers|
  {
    if |containers| == 0 then Some([])
    else
      match (ContainerName(containers[0]), ActiveContainers(containers[1..]))
      case (Some(n), Some(rest)) => Some([n] + rest)
      case _ => None
  }

  /** The container publishes `port` on the host (`p.PublicPort == port`). */
  predicate Publishes(c: Container, port: int) {
    c.ports.Some? && exists k :: 0 <= k < |c.ports.value| && c.ports.value[k].publicPort == Some(port)
  }

  /** `stopContainerByPort`'s choice: the position of the first container
      publishing `port`, or `None` when there is none and nothing is
      stopped. */
  function ContainerOnPort(containers: seq<Container>, port: int): (r: Option<nat>)
    ensures r.None? <==> forall i :: 0 <= i < |containers| ==> !Publishes(containers[i], port)
    ensures r.Some? ==> r.value < |containers| && Publishes(containers[r.value], port)
    ensures r.Some? ==> forall i :: 0 <= i < r.value ==> !Publishes(containers[i], port)
    decreases |containers|
  {
    if |containers| == 0 then None
    else if Publishes(containers[0], port) then Some(0)
    else
      match ContainerOnPort(containers[1..], port)
      case Some(i) => Some(i + 1)
      case None => None
  }

  /** The id of the container `stopContainerByPort` stops, if any. */
  function StopContainerByPort(containers: seq<Container>, port: int): (r: Option<string>)
    ensures r.None? <==> forall i :: 0 <= i < |containers| ==> !Publishes(containers[i], port)
    ensures r.Some? ==> exists i :: 0 <= i < |containers| && containers[i].id == r.value && Publishes(containers[i], port)
  {
    match ContainerOnPort(containers, port)
    case Some(i) => Some(containers[i].id)
    case None => None
  }

  predicate HasTags(img: Image) {
    img.repoTags.Some? && |img.repoTags.value| > 0
  }

  /** `getPulledImages`: the first tag of every image that has one, in the
      daemon's order. */
  function PulledImages(images: seq<Image>): (r: seq<string>)
    ensures |r| <= |images|
    ensures forall t :: t in r <==> exists i :: 0 <= i < |images| && HasTags(images[i]) && images[i].repoTags.value[0] == t
    decreases |images|
  {
    if |images| == 0 then []
    else
      var rest := PulledImages(images[1..]);
      assert forall i :: 0 < i < |images| ==> images[i] == images[1..][i - 1];
      if HasTags(images[0]) then [images[0].repoTags.value[0]] + rest else rest
  }

  /** The listing is taken image by image: listing two snapshots one after
      the other is listing their concatenation. */
  lemma {:induction false} PulledImagesAppend(a: seq<Image>, b: seq<Image>)
    ensures PulledImages(a + b) == PulledImages(a) + PulledImages(b)
    decreases |a|
  {
    if |a| == 0 {
      assert a + b == b;
    } else {
      assert (a + b)[1..] == a[1..] + b;
      PulledImagesAppend(a[1..], b);
    }
  }

  /** The two compose subcommands montra runs. */
  datatype ComposeAction = Up | Stop

  /** The line `dockerComposeUp`/`dockerComposeStop` runs for an already
      resolved file path: `-f <path>`, the subcommand, then the service
      names. */
  function ComposeCommand(action: ComposeAction, resolvedPath: string, serviceNames: seq<string>): string {
    "docker-compose " + Join(ComposeTokens(action, resolvedPath, serviceNames), " ")
  }

  function ComposeTokens(action: ComposeAction, resolvedPath: string, serviceNames: seq<string>): seq<string> {
    ["-f", resolvedPath] + (if action == Up then ["up", "-d"] else ["stop"]) + serviceNames
  }

  /** The command line reads back, word by word, as the file path, the
      subcommand and the service names, when none of them holds a space. */
  lemma ComposeCommandRoundTrip(action: ComposeAction, resolvedPath: string, serviceNames: seq<string>)
    requires ' ' !in resolvedPath && forall i :: 0 <= i < |serviceNames| ==> ' ' !in serviceNames[i]
    ensures Split(ComposeCommand(action, resolvedPath, serviceNames), ' ') ==
            ["docker-compose", "-f", resolvedPath] + (if action == Up then ["up", "-d"] else ["stop"]) + serviceNames
  {
    var tokens := ComposeTokens(action, resolvedPath, serviceNames);
    var all := ["docker-compose"] + tokens;
    assert all[1..] == tokens;
    assert Join(all, " ") == ComposeCommand(action, resolvedPath, serviceNames);
    forall i | 0 <= i < |all| ensures ' ' !in all[i] {
      if i >= 1 + |tokens| - |serviceNames| {
        assert all[i] == serviceNames[i - 1 - (|tokens| - |serviceNames|)];
      }
    }
    SplitJoin(all, ' ');
  }

  /** The result of a compose helper: success, or the classified failure. */
  datatype ComposeResult = ComposeOk | ComposeFailed(error: ExecFailure)

  /** `dockerComposeUp`/`dockerComposeStop` with `path.resolve` and the
      process runner given as oracles: the line run is the compose command
      for the resolved path, and the outcome is success exactly when it
      completed. No case throws. */
  function DockerCompose(resolve: string -> string, run: string -> RunOutcome, action: ComposeAction,
                         filePath: string, serviceNames: seq<string> := []): (r: ComposeResult)
    ensures r.ComposeOk? <==> run(ComposeCommand(action, resolve(filePath), serviceNames)).Completed?
    ensures r.ComposeFailed? ==> r.error == ClassifyThrown(run(ComposeCommand(action, resolve(filePath), serviceNames)).thrown)
  {
    match run(ComposeCommand(action, resolve(filePath), serviceNames))
    case Completed(_, _) => ComposeOk
    case Threw(t) => ComposeFailed(ClassifyThrown(t))
  }
}
