/** The store commands that only edit lists: service add and remove
    (src/commands/service/add.ts `addService`, remove.ts), package add and
    remove, and group create, delete, add and remove. Each either throws
    before writing anything or writes exactly one list. */
module Crud {
  import opened JsStrings
  import opened Outcomes
  import opened Store
  import opened Lists
  import opened World
  import Status

  /** Writes each line, in order. */
  function SaidAll(st: State, lines: seq<Log>): (r: State)
    ensures r == st.(log := st.log + lines)
  {
    st.(log := st.log + lines)
  }

  function Lines(names: seq<string>, line: string -> Log): (r: seq<Log>)
    ensures |r| == |names| && forall k :: 0 <= k < |names| ==> r[k] == line(names[k])
  {
    seq(|names|, k requires 0 <= k < |names| => line(names[k]))
  }

  // ---------------------------------------------------------------------
  // services
  // ---------------------------------------------------------------------

  /** `services.some((s) => s.name === name)`: by name only, never by
      alias. */
  predicate NameTaken(services: seq<Service>, name: string) {
    exists k :: 0 <= k < |services| && services[k].name == name
  }

  function TypeList(): string {
    Join(ServiceTypeNames, ", ")
  }

  /** `addService`. The duplicate check comes before the type check; the
      repository defaults to the name and the runtime to the global one. */
  function AddService(st: State, name: string, serviceType: string, repository: Option<string>,
                      alias: Option<string>, port: Option<int>, runCommand: Option<string>,
                      expectedSecondsToStart: Option<int>, runtime: Option<string>): (r: Outcome<()>)
    ensures NameTaken(st.config.services, name) ==>
      r == Raised("A service named \"" + name + "\" already exists.", st)
    ensures !NameTaken(st.config.services, name) && ParseType(serviceType).None? ==>
      r == Raised("Invalid service type \"" + serviceType + "\". Must be one of: " + TypeList(), st)
    ensures r.Returned? <==> !NameTaken(st.config.services, name) && serviceType in ServiceTypeNames
    ensures r.Returned? ==>
      r.state.config == st.config.(services := st.config.services +
        [Service(name, ParseType(serviceType).value, repository.GetOr(name), runCommand, alias, port,
                 expectedSecondsToStart, Some(runtime.GetOr(st.config.runtime)))])
    ensures r.Returned? ==> TypeName(r.state.config.services[|st.config.services|].serviceType) == serviceType
    ensures r.Raised? ==> r.state == st
  {
    if NameTaken(st.config.services, name) then Raised("A service named \"" + name + "\" already exists.", st)
    else match ParseType(serviceType)
      case None => Raised("Invalid service type \"" + serviceType + "\". Must be one of: " + TypeList(), st)
      case Some(t) =>
        var s := Service(name, t, repository.GetOr(name), runCommand, alias, port,
                         expectedSecondsToStart, Some(runtime.GetOr(st.config.runtime)));
        Returned((), Said(st.(config := st.config.(services := st.config.services + [s])),
                          Info("✅ Added new service \"" + name + "\"")))
  }

  function OtherName(name: string): Service -> bool {
    (s: Service) => s.name != name
  }

  /** Service `remove`: every service with that exact name goes; an alias
      does not count. */
  function RemoveService(st: State, name: string): (r: Outcome<()>)
    ensures !NameTaken(st.config.services, name) ==> r == Raised(Status.UnknownService(name), st)
    ensures NameTaken(st.config.services, name) ==>
      r == Returned((), Said(st.(config := st.config.(services := Filter(st.config.services, OtherName(name)))),
                             Info("✅ Removed service \"" + name + "\"")))
  {
    if !NameTaken(st.config.services, name) then Raised(Status.UnknownService(name), st)
    else Returned((), Said(st.(config := st.config.(services := Filter(st.config.services, OtherName(name)))),
                           Info("✅ Removed service \"" + name + "\"")))
  }

  /** The removal drops exactly the services with that name. */
  lemma RemoveServiceDropsName(st: State, name: string)
    requires NameTaken(st.config.services, name)
    ensures var after := RemoveService(st, name).state.config.services;
      && (forall k :: 0 <= k < |after| ==> after[k].name != name && after[k] in st.config.services)
      && (forall k :: 0 <= k < |st.config.services| && st.config.services[k].name != name ==>
            st.config.services[k] in after)
      && |after| < |st.config.services|
  {
    var services := st.config.services;
    var k :| 0 <= k < |services| && services[k].name == name;
    FilterDropsOne(services, OtherName(name), k);
  }

  /** A filter that rejects some element is shorter than its input. */
  lemma {:induction false} FilterDropsOne<T>(xs: seq<T>, keep: T -> bool, k: nat)
    requires k < |xs| && !keep(xs[k])
    ensures |Filter(xs, keep)| < |xs|
    decreases |xs|
  {
    if k > 0 {
      assert xs[1..][k - 1] == xs[k];
      FilterDropsOne(xs[1..], keep, k - 1);
    }
  }

  /** Adding a service and removing it again gives back the list of
      services. */
  lemma AddThenRemoveService(st: State, name: string, serviceType: string, repository: Option<string>,
                             alias: Option<string>, port: Option<int>, runCommand: Option<string>,
                             expectedSecondsToStart: Option<int>, runtime: Option<string>)
    requires AddService(st, name, serviceType, repository, alias, port, runCommand, expectedSecondsToStart, runtime).Returned?
    ensures var st1 := AddService(st, name, serviceType, repository, alias, port, runCommand,
                                  expectedSecondsToStart, runtime).state;
      RemoveService(st1, name).Returned? && RemoveService(st1, name).state.config == st.config
  {
    var st1 := AddService(st, name, serviceType, repository, alias, port, runCommand, expectedSecondsToStart, runtime).state;
    var services := st.config.services;
    var s := st1.config.services[|services|];
    assert st1.config.services == services + [s];
    assert NameTaken(st1.config.services, name) by {
      assert st1.config.services[|services|].name == name;
    }
    FilterAppend(services, [s], OtherName(name));
    FilterKeepsAll(services, OtherName(name));
    assert [s][1..] == [];
    assert Filter([s], OtherName(name)) == [];
  }

  // ---------------------------------------------------------------------
  // packages
  // ---------------------------------------------------------------------

  predicate PackageTaken(packages: seq<Package>, name: string) {
    exists k :: 0 <= k < |packages| && packages[k].name == name
  }

  function OtherPackage(name: string): Package -> bool {
    (p: Package) => p.name != name
  }

  /** Package `add`: the repository defaults to the name. */
  function AddPackage(st: State, name: string, repository: Option<string>): (r: Outcome<()>)
    ensures PackageTaken(st.config.packages, name) ==> r == Raised("A package named \"" + name + "\" already exists.", st)
    ensures !PackageTaken(st.config.packages, name) ==>
      r == Returned((), Said(st.(config := st.config.(packages := st.config.packages + [Package(name, repository.GetOr(name))])),
                             Info("✅ Added new package \"" + name + "\"")))
  {
    if PackageTaken(st.config.packages, name) then Raised("A package named \"" + name + "\" already exists.", st)
    else Returned((), Said(st.(config := st.config.(packages := st.config.packages + [Package(name, repository.GetOr(name))])),
                           Info("✅ Added new package \"" + name + "\"")))
  }

  /** Package `remove`: nothing is written when it throws. */
  function RemovePackage(st: State, name: string): (r: Outcome<()>)
    ensures !PackageTaken(st.config.packages, name) ==>
      r == Raised("Package with the name " + name + " does not exist", st)
    ensures PackageTaken(st.config.packages, name) ==>
      r == Returned((), Said(st.(config := st.config.(packages := Filter(st.config.packages, OtherPackage(name)))),
                             Info("✅ Removed package \"" + name + "\"")))
  {
    if !PackageTaken(st.config.packages, name) then Raised("Package with the name " + name + " does not exist", st)
    else Returned((), Said(st.(config := st.config.(packages := Filter(st.config.packages, OtherPackage(name)))),
                           Info("✅ Removed package \"" + name + "\"")))
  }

  /** Adding a package and removing it again gives back the store. */
  lemma AddThenRemovePackage(st: State, name: string, repository: Option<string>)
    requires !PackageTaken(st.config.packages, name)
    ensures var st1 := AddPackage(st, name, repository).state;
      RemovePackage(st1, name).Returned? && RemovePackage(st1, name).state.config == st.config
  {
    var st1 := AddPackage(st, name, repository).state;
    var p := Package(name, repository.GetOr(name));
    assert st1.config.packages == st.config.packages + [p];
    assert st1.config.packages[|st.config.packages|] == p;
    FilterAppend(st.config.packages, [p], OtherPackage(name));
    FilterKeepsAll(st.config.packages, OtherPackage(name));
    assert [p][1..] == [];
    assert Filter([p], OtherPackage(name)) == [];
  }

  // ---------------------------------------------------------------------
  // groups
  // ---------------------------------------------------------------------

  predicate GroupTaken(groups: seq<ServiceGroup>, name: string) {
    exists k :: 0 <= k < |groups| && groups[k].name == name
  }

  lemma FindGroupIffTaken(groups: seq<ServiceGroup>, name: string)
    ensures FindGroup(groups, name).Some? <==> GroupTaken(groups, name)
  {
    if FindGroup(groups, name).Some? {
      assert groups[FindGroup(groups, name).value].name == name;
    }
  }

  function OtherGroup(name: string): ServiceGroup -> bool {
    (g: ServiceGroup) => g.name != name
  }

  /** Group `create`: an empty group, appended at the end. */
  function CreateGroup(st: State, name: string): (r: Outcome<()>)
    ensures GroupTaken(st.config.serviceGroups, name) ==>
      r == Raised("A service group named \"" + name + "\" already exists.", st)
    ensures !GroupTaken(st.config.serviceGroups, name) ==>
      r == Returned((), Said(st.(config := st.config.(serviceGroups := st.config.serviceGroups + [ServiceGroup(name, [])])),
                             Info("✅ Added new service group \"" + name + "\"")))
  {
    if GroupTaken(st.config.serviceGroups, name) then Raised("A service group named \"" + name + "\" already exists.", st)
    else Returned((), Said(st.(config := st.config.(serviceGroups := st.config.serviceGroups + [ServiceGroup(name, [])])),
                           Info("✅ Added new service group \"" + name + "\"")))
  }

  /** Group `delete`; `confirmed` is the prompt's answer. A declined
      prompt ends the process with status 1 before the write: the value is
      whether anything was deleted. */
  function DeleteGroup(st: State, name: string, force: bool, confirmed: bool): (r: Outcome<bool>)
    ensures !GroupTaken(st.config.serviceGroups, name) ==> r == Raised(UnknownGroup(name), st)
    ensures GroupTaken(st.config.serviceGroups, name) && !force && !confirmed ==> r == Returned(false, st)
    ensures GroupTaken(st.config.serviceGroups, name) && (force || confirmed) ==>
      r == Returned(true, Said(st.(config := st.config.(serviceGroups := Filter(st.config.serviceGroups, OtherGroup(name)))),
                               Info("✅ Removed service group \"" + name + "\"")))
  {
    if !GroupTaken(st.config.serviceGroups, name) then Raised(UnknownGroup(name), st)
    else if !force && !confirmed then Returned(false, st)
    else Returned(true, Said(st.(config := st.config.(serviceGroups := Filter(st.config.serviceGroups, OtherGroup(name)))),
                             Info("✅ Removed service group \"" + name + "\"")))
  }

  /** Creating a group and deleting it again gives back the store. */
  lemma CreateThenDeleteGroup(st: State, name: string, confirmed: bool)
    requires !GroupTaken(st.config.serviceGroups, name)
    ensures var st1 := CreateGroup(st, name).state;
      DeleteGroup(st1, name, true, confirmed).Returned? && DeleteGroup(st1, name, true, confirmed).state.config == st.config
  {
    var st1 := CreateGroup(st, name).state;
    var g := ServiceGroup(name, []);
    assert st1.config.serviceGroups[|st.config.serviceGroups|] == g;
    FilterAppend(st.config.serviceGroups, [g], OtherGroup(name));
    FilterKeepsAll(st.config.serviceGroups, OtherGroup(name));
    assert [g][1..] == [];
    assert Filter([g], OtherGroup(name)) == [];
  }

  /** Each group named `name` is edited with `edit`; the others stay as
      they are, in place. */
  function EditGroups(groups: seq<ServiceGroup>, name: string, edit: seq<string> -> seq<string>): (r: seq<ServiceGroup>)
    ensures |r| == |groups|
    ensures forall k :: 0 <= k < |groups| ==>
      r[k] == if groups[k].name == name then groups[k].(services := edit(groups[k].services)) else groups[k]
  {
    seq(|groups|, k requires 0 <= k < |groups| =>
      if groups[k].name == name then groups[k].(services := edit(groups[k].services)) else groups[k])
  }

  function Known(services: seq<Service>): string -> bool {
    (n: string) => n in ServiceNames(services)
  }

  function Unknown(services: seq<Service>): string -> bool {
    (n: string) => n !in ServiceNames(services)
  }

  function Member(members: seq<string>): string -> bool {
    (n: string) => n in members
  }

  function NonMember(members: seq<string>): string -> bool {
    (n: string) => n !in members
  }

  function NotSkippedUnknown(n: string): Log {
    Warning("⚠️ Skipped \"" + n + "\" since it is not a known service")
  }

  /** The names group `add` appends: the known names not yet in the group,
      in argument order, repeats included. */
  function ToAdd(services: seq<Service>, members: seq<string>, names: seq<string>): seq<string> {
    Filter(Filter(names, Known(services)), NonMember(members))
  }

  /** Group `add`. The names to add are judged against the first group of
      that name; every group of that name gets them appended. */
  function AddToGroup(st: State, group: string, names: seq<string>): (r: Outcome<()>)
    ensures FindGroup(st.config.serviceGroups, group).None? ==> r == Raised(UnknownGroup(group), st)
    ensures FindGroup(st.config.serviceGroups, group).Some? ==> r.Returned?
    ensures r.Returned? ==>
      var target := st.config.serviceGroups[FindGroup(st.config.serviceGroups, group).value];
      var toAdd := ToAdd(st.config.services, target.services, names);
      && (|toAdd| == 0 ==> r.state.config == st.config)
      && (|toAdd| > 0 ==> r.state.config == st.config.(serviceGroups :=
            EditGroups(st.config.serviceGroups, group, (ms: seq<string>) => ms + toAdd)))
  {
    match FindGroup(st.config.serviceGroups, group)
    case None => Raised(UnknownGroup(group), st)
    case Some(i) =>
      var target := st.config.serviceGroups[i];
      var known := Filter(names, Known(st.config.services));
      var skipped := Lines(Filter(names, Unknown(st.config.services)), NotSkippedUnknown)
                   + Lines(Filter(known, Member(target.services)),
                           (n: string) => Info("ℹ️ Skipped \"" + n + "\" as it is already in \"" + group + "\""));
      var toAdd := Filter(known, NonMember(target.services));
      var st1 := SaidAll(st, skipped);
      if |toAdd| == 0 then Returned((), st1)
      else
        Returned((), SaidAll(st1.(config := st1.config.(serviceGroups :=
                               EditGroups(st.config.serviceGroups, group, (ms: seq<string>) => ms + toAdd))),
                             Lines(toAdd, (n: string) => Info("✅ Added \"" + n + "\" to \"" + group + "\""))))
  }

  /** What `add` appends, stated without the filters: exactly the names
      that are stored services and not members, each as often as it was
      given. */
  lemma ToAddIsKnownNonMembers(services: seq<Service>, members: seq<string>, names: seq<string>)
    ensures var toAdd := ToAdd(services, members, names);
      && (forall k :: 0 <= k < |toAdd| ==> toAdd[k] in ServiceNames(services) && toAdd[k] !in members)
      && (forall k :: 0 <= k < |names| && names[k] in ServiceNames(services) && names[k] !in members ==>
            names[k] in toAdd)
      && ToAdd(services, members, names) == Filter(names, Both(Known(services), NonMember(members)))
  {
    FilterTwice(names, Known(services), NonMember(members));
  }

  /** Repeated names are not collapsed: a known non-member given twice is
      appended twice. */
  lemma AddKeepsRepeats(services: seq<Service>, members: seq<string>, n: string)
    requires n in ServiceNames(services) && n !in members
    ensures ToAdd(services, members, [n, n]) == [n, n]
  {
    FilterKeepsAll([n, n], Known(services));
    FilterKeepsAll([n, n], NonMember(members));
  }

  /** The names group `remove` takes out: the known names that are in the
      group. */
  function ToRemove(services: seq<Service>, members: seq<string>, names: seq<string>): seq<string> {
    Filter(Filter(names, Known(services)), Member(members))
  }

  /** Group `remove`. Every occurrence of each name to remove goes from
      every group of that name; the rest keep their order. */
  function RemoveFromGroup(st: State, group: string, names: seq<string>): (r: Outcome<()>)
    ensures FindGroup(st.config.serviceGroups, group).None? ==> r == Raised(UnknownGroup(group), st)
    ensures FindGroup(st.config.serviceGroups, group).Some? ==> r.Returned?
    ensures r.Returned? ==>
      var target := st.config.serviceGroups[FindGroup(st.config.serviceGroups, group).value];
      var toRemove := ToRemove(st.config.services, target.services, names);
      && (|toRemove| == 0 ==> r.state.config == st.config)
      && (|toRemove| > 0 ==> r.state.config == st.config.(serviceGroups :=
            EditGroups(st.config.serviceGroups, group, (ms: seq<string>) => Filter(ms, NonMember(toRemove)))))
  {
    match FindGroup(st.config.serviceGroups, group)
    case None => Raised(UnknownGroup(group), st)
    case Some(i) =>
      var target := st.config.serviceGroups[i];
      var known := Filter(names, Known(st.config.services));
      var skipped := Lines(Filter(names, Unknown(st.config.services)), NotSkippedUnknown)
                   + Lines(Filter(known, NonMember(target.services)),
                           (n: string) => Info("ℹ️ Skipped \"" + n + "\" as it is not in \"" + group + "\""));
      var toRemove := Filter(known, Member(target.services));
      var st1 := SaidAll(st, skipped);
      if |toRemove| == 0 then Returned((), st1)
      else
        Returned((), SaidAll(st1.(config := st1.config.(serviceGroups :=
                               EditGroups(st.config.serviceGroups, group, (ms: seq<string>) => Filter(ms, NonMember(toRemove))))),
                             Lines(toRemove, (n: string) => Info("✅ Removed \"" + n + "\" from \"" + group + "\""))))
  }

  /** Adding known non-members to a group whose name is unique and
      removing the same names again gives back the groups. */
  lemma AddThenRemoveFromGroup(st: State, group: string, names: seq<string>)
    requires FindGroup(st.config.serviceGroups, group).Some?
    requires forall k :: 0 <= k < |st.config.serviceGroups| && st.config.serviceGroups[k].name == group ==>
               k == FindGroup(st.config.serviceGroups, group).value
    requires var target := st.config.serviceGroups[FindGroup(st.config.serviceGroups, group).value];
      forall k :: 0 <= k < |names| ==> names[k] !in target.services
    ensures var st1 := AddToGroup(st, group, names).state;
      RemoveFromGroup(st1, group, names).state.config == st.config
  {
    var groups := st.config.serviceGroups;
    var i := FindGroup(groups, group).value;
    var target := groups[i];
    var services := st.config.services;
    var toAdd := ToAdd(services, target.services, names);
    var st1 := AddToGroup(st, group, names).state;
    AddedAreGiven(services, target.services, names);
    if |toAdd| == 0 {
      NothingToRemove(services, target.services, names);
    } else {
      var groups1 := EditGroups(groups, group, (ms: seq<string>) => ms + toAdd);
      assert st1.config == st.config.(serviceGroups := groups1);
      UniqueGroupEdited(groups, group, i, (ms: seq<string>) => ms + toAdd);
      RemovesWhatWasAdded(services, target.services, names);
      var edit := (ms: seq<string>) => Filter(ms, NonMember(toAdd));
      assert RemoveFromGroup(st1, group, names).state.config == st.config.(serviceGroups := EditGroups(groups1, group, edit));
      FilterAppend(target.services, toAdd, NonMember(toAdd));
      FilterKeepsAll(target.services, NonMember(toAdd));
      NothingLeft(toAdd);
      forall k | 0 <= k < |groups|
        ensures EditGroups(groups1, group, edit)[k] == groups[k]
      {
        if groups[k].name == group {
          assert k == i;
        }
      }
    }
  }

  /** The names `add` appends are among those given, so none of them was a
      member before; every known name is appended. */
  lemma AddedAreGiven(services: seq<Service>, members: seq<string>, names: seq<string>)
    requires forall k :: 0 <= k < |names| ==> names[k] !in members
    ensures var toAdd := ToAdd(services, members, names);
      && ToAdd(services, members, names) == Filter(names, Known(services))
      && (forall k :: 0 <= k < |members| ==> members[k] !in toAdd)
  {
    var known := Filter(names, Known(services));
    FilterKeepsAll(known, NonMember(members));
  }

  /** With nothing appended there is nothing to take out either. */
  lemma NothingToRemove(services: seq<Service>, members: seq<string>, names: seq<string>)
    requires forall k :: 0 <= k < |names| ==> names[k] !in members
    ensures ToRemove(services, members, names) == []
  {
    var known := Filter(names, Known(services));
    forall k | 0 <= k < |known|
      ensures !Member(members)(known[k])
    {
      var j :| 0 <= j < |names| && names[j] == known[k];
    }
    FilterRejectsAll(known, Member(members));
  }

  /** After the append, the names to remove are exactly those appended. */
  lemma RemovesWhatWasAdded(services: seq<Service>, members: seq<string>, names: seq<string>)
    requires forall k :: 0 <= k < |names| ==> names[k] !in members
    ensures ToRemove(services, members + ToAdd(services, members, names), names) == ToAdd(services, members, names)
  {
    var known := Filter(names, Known(services));
    AddedAreGiven(services, members, names);
    FilterKeepsAll(known, Member(members + known));
  }

  /** Editing the groups of a name held by one group only changes that
      group, and the lookup still finds it at the same place. */
  lemma UniqueGroupEdited(groups: seq<ServiceGroup>, name: string, i: nat, edit: seq<string> -> seq<string>)
    requires FindGroup(groups, name) == Some(i)
    requires forall k :: 0 <= k < |groups| && groups[k].name == name ==> k == i
    ensures var groups1 := EditGroups(groups, name, edit);
      && FindGroup(groups1, name) == Some(i)
      && groups1[i] == groups[i].(services := edit(groups[i].services))
      && (forall k :: 0 <= k < |groups1| && groups1[k].name == name ==> k == i)
  {
    var groups1 := EditGroups(groups, name, edit);
    assert forall k :: 0 <= k < |groups| ==> groups1[k].name == groups[k].name;
  }

  /** Filtering a list by non-membership in itself leaves nothing. */
  lemma NothingLeft(xs: seq<string>)
    ensures Filter(xs, NonMember(xs)) == []
  {
    FilterRejectsAll(xs, NonMember(xs));
  }
}
