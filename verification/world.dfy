/** Everything the lifecycle commands read from outside the store, and the
    state they act on. The outside world is fixed for one command: every
    command line run through `execute` or `exec` has one outcome, the file
    system and the daemon listings are snapshots, and `now` is the clock. */
module World {
  import opened Outcomes
  import opened Store
  import opened Tmux
  import opened Docker
  import opened ComposeFile

  datatype World = World(
    run: string -> RunOutcome,
    resolve: string -> string,
    isDirectory: string -> bool,
    files: Files,
    containers: seq<Container>,
    images: seq<Image>,
    tmuxFaults: Faults,
    now: int)

  /** What a command did outside the store and the tmux server. */
  datatype Effect = Ran(line: string) | StoppedContainer(id: string) | Notified(message: string)

  datatype State = State(config: Config, tmux: TmuxState, effects: seq<Effect>, log: seq<Log>)

  /** A command either returns a value or throws a message; what it did
      before throwing stays done. */
  datatype Outcome<T> = Returned(value: T, state: State) | Raised(message: string, state: State)

  function Said(st: State, line: Log): State {
    st.(log := st.log + [line])
  }

  function Did(st: State, e: Effect): State {
    st.(effects := st.effects + [e])
  }

  /** `for (const x of xs) await f(x)`: one at a time, in order; the first
      throw ends the loop and is rethrown. */
  function ForEach(st: State, xs: seq<string>, f: (State, string) -> Outcome<()>): (r: Outcome<()>)
    decreases |xs|
  {
    if |xs| == 0 then Returned((), st)
    else
      match f(st, xs[0])
      case Raised(m, st1) => Raised(m, st1)
      case Returned(_, st1) => ForEach(st1, xs[1..], f)
  }

  /** Running a loop over `a + b` is running it over `a` and, unless that
      threw, continuing over `b` from where it left off. */
  lemma {:induction false} ForEachAppend(st: State, a: seq<string>, b: seq<string>, f: (State, string) -> Outcome<()>)
    ensures ForEach(st, a + b, f) ==
      match ForEach(st, a, f)
      case Raised(m, st1) => Raised(m, st1)
      case Returned(_, st1) => ForEach(st1, b, f)
    decreases |a|
  {
    if |a| == 0 {
      assert a + b == b;
    } else {
      assert (a + b)[1..] == a[1..] + b;
      match f(st, a[0])
      case Raised(_, _) =>
      case Returned(_, st1) => ForEachAppend(st1, a[1..], b, f);
    }
  }

  /** The first throw aborts the rest: when the call for `xs[0]` throws,
      the loop throws the same message from the same state, whatever
      follows. */
  lemma FirstThrowAborts(st: State, xs: seq<string>, f: (State, string) -> Outcome<()>)
    requires |xs| > 0 && f(st, xs[0]).Raised?
    ensures ForEach(st, xs, f) == f(st, xs[0])
  {
  }

  /** A loop over one name is the call for it. */
  lemma ForEachSingle(st: State, x: string, f: (State, string) -> Outcome<()>)
    ensures ForEach(st, [x], f) == f(st, x)
  {
    assert [x][1..] == [];
    match f(st, x)
    case Raised(_, _) =>
    case Returned(v, st1) =>
      assert v == ();
      assert ForEach(st, [x], f) == ForEach(st1, [], f);
  }

  /** A loop whose steps keep an invariant and pass exactly on the names
      `ok` accepts, wherever the invariant holds, passes exactly when `ok`
      accepts every name, and keeps the invariant. */
  lemma {:induction false} ForEachPassesIff(st: State, xs: seq<string>, f: (State, string) -> Outcome<()>,
                                            ok: string -> bool, inv: State -> bool)
    requires inv(st)
    requires forall s: State, x: string :: inv(s) ==> (f(s, x).Returned? <==> ok(x)) && inv(f(s, x).state)
    ensures ForEach(st, xs, f).Returned? <==> forall k :: 0 <= k < |xs| ==> ok(xs[k])
    ensures inv(ForEach(st, xs, f).state)
    decreases |xs|
  {
    if |xs| > 0 {
      match f(st, xs[0])
      case Raised(_, _) =>
      case Returned(_, st1) =>
        ForEachPassesIff(st1, xs[1..], f, ok, inv);
        assert forall k :: 1 <= k < |xs| ==> xs[k] == xs[1..][k - 1];
    }
  }

  /** A loop that returned visited only accepted names: when every step
      keeps `inv` and a step that returns from a state keeping `inv` has
      accepted its name under `ok`, a returning loop accepted every name. */
  lemma {:induction false} ForEachReturnedAccepts(st: State, xs: seq<string>, f: (State, string) -> Outcome<()>,
                                                  ok: string -> bool, inv: State -> bool)
    requires inv(st)
    requires forall s: State, x: string :: inv(s) ==> inv(f(s, x).state) && (f(s, x).Returned? ==> ok(x))
    ensures ForEach(st, xs, f).Returned? ==> forall k :: 0 <= k < |xs| ==> ok(xs[k])
    decreases |xs|
  {
    if |xs| > 0 && f(st, xs[0]).Returned? {
      ForEachReturnedAccepts(f(st, xs[0]).state, xs[1..], f, ok, inv);
      assert forall k :: 1 <= k < |xs| ==> xs[k] == xs[1..][k - 1];
    }
  }
}
