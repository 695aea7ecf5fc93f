/** The services ConfigMap as a whole: building it, sending it, reading it back and comparing it. */
module ServicesData {
  import opened Basics
  import opened Graph
  import opened ServiceSpec
  import opened CycleCheck
  import opened CycleVerdict
  import opened ServicesCM
  import opened Sorting
  import opened Reconcile

  datatype FileInfo = FileInfo(path: string, checksum: string)

  datatype Data = Data(
    services: seq<Service>,
    files: seq<FileInfo>,
    environmentVars: map<string, string>,
    watchedEnvironmentVars: seq<string>)

  /** JSON text, by what it decodes to; `Text` decodes to none of these. */
  datatype Json =
    | ServicesJson(services: seq<Service>)
    | FilesJson(files: seq<FileInfo>)
    | EnvVarsJson(vars: map<string, string>)
    | NamesJson(names: seq<string>)
    | Text(text: string)

  const SERVICES_KEY := "services"
  const FILES_KEY := "files"
  const ENV_VARS_KEY := "environmentVars"
  const WATCHED_KEY := "watchedEnvironmentVars"

  ghost predicate ValidServices(services: seq<Service>) {
    DependenciesValid(services) && PrioritiesValid(services)
  }

  /** `sorted` is the outcome of the sort inside the validation. */
  method NewData(services: seq<Service>, files: seq<FileInfo>, envVars: map<string, string>, watched: seq<string>,
                 sorted: seq<Service>) returns (r: Option<Data>)
    requires SortOf(services, sorted)
    ensures r == if ValidServices(services) then Some(Data(sorted, files, envVars, watched)) else None
  {
    var ok := ValidateDependencies(services);
    if !ok {
      return None;
    }
    ok := ValidatePriorities(services, sorted);
    if !ok {
      return None;
    }
    return Some(Data(sorted, files, envVars, watched));
  }

  function Generate(data: Data): map<string, Json> {
    var required := map[SERVICES_KEY := ServicesJson(data.services),
                        FILES_KEY := FilesJson(data.files),
                        WATCHED_KEY := NamesJson(data.watchedEnvironmentVars)];
    if |data.environmentVars| > 0 then required[ENV_VARS_KEY := EnvVarsJson(data.environmentVars)] else required
  }

  /** The value of an optional key: absent and empty text read as the default, other text must decode. */
  predicate OptionalKey(cm: map<string, Json>, key: string) {
    key in cm ==> cm[key] == Text("") || (if key == ENV_VARS_KEY then cm[key].EnvVarsJson? else cm[key].NamesJson?)
  }

  predicate WellFormed(cm: map<string, Json>) {
    && 2 <= |cm| <= 4
    && SERVICES_KEY in cm && cm[SERVICES_KEY].ServicesJson?
    && FILES_KEY in cm && cm[FILES_KEY].FilesJson?
    && OptionalKey(cm, ENV_VARS_KEY)
    && OptionalKey(cm, WATCHED_KEY)
  }

  function EnvVars(cm: map<string, Json>): map<string, string> {
    if ENV_VARS_KEY in cm && cm[ENV_VARS_KEY].EnvVarsJson? then cm[ENV_VARS_KEY].vars else map[]
  }

  function Watched(cm: map<string, Json>): seq<string> {
    if WATCHED_KEY in cm && cm[WATCHED_KEY].NamesJson? then cm[WATCHED_KEY].names else []
  }

  ghost function Parsed(cm: map<string, Json>, sorted: seq<Service>): Option<Data> {
    if WellFormed(cm) && ValidServices(cm[SERVICES_KEY].services)
    then Some(Data(sorted, cm[FILES_KEY].files, EnvVars(cm), Watched(cm)))
    else None
  }

  method Parse(cm: map<string, Json>, sorted: seq<Service>) returns (r: Option<Data>)
    requires SERVICES_KEY in cm && cm[SERVICES_KEY].ServicesJson? ==> SortOf(cm[SERVICES_KEY].services, sorted)
    ensures r == Parsed(cm, sorted)
    ensures r.Some? ==>
              && 2 <= |cm| <= 4 && "services" in cm && "files" in cm
              && cm["files"] == FilesJson(r.value.files) && r.value.services == sorted
              && cm["services"].ServicesJson? && ValidServices(cm["services"].services)
    ensures r.Some? ==> if "environmentVars" in cm && cm["environmentVars"] != Text("")
                        then cm["environmentVars"] == EnvVarsJson(r.value.environmentVars) else r.value.environmentVars == map[]
    ensures r.Some? ==> if "watchedEnvironmentVars" in cm && cm["watchedEnvironmentVars"] != Text("")
                        then cm["watchedEnvironmentVars"] == NamesJson(r.value.watchedEnvironmentVars)
                        else r.value.watchedEnvironmentVars == []
    ensures r.None? <==>
            || |cm| < 2 || |cm| > 4
            || "services" !in cm || !cm["services"].ServicesJson? || !ValidServices(cm["services"].services)
            || "files" !in cm || !cm["files"].FilesJson?
            || ("environmentVars" in cm && cm["environmentVars"] != Text("") && !cm["environmentVars"].EnvVarsJson?)
            || ("watchedEnvironmentVars" in cm && cm["watchedEnvironmentVars"] != Text("") &&
                !cm["watchedEnvironmentVars"].NamesJson?)
  {
    hide ValidServices, SortOf;
    if |cm| < 2 || |cm| > 4 {
      return None;
    }
    if SERVICES_KEY !in cm || !cm[SERVICES_KEY].ServicesJson? {
      return None;
    }
    if FILES_KEY !in cm || !cm[FILES_KEY].FilesJson? {
      return None;
    }
    var envVars: map<string, string> := map[];
    if ENV_VARS_KEY in cm && cm[ENV_VARS_KEY] != Text("") {
      if !cm[ENV_VARS_KEY].EnvVarsJson? {
        return None;
      }
      envVars := cm[ENV_VARS_KEY].vars;
    }
    var watched: seq<string> := [];
    if WATCHED_KEY in cm && cm[WATCHED_KEY] != Text("") {
      if !cm[WATCHED_KEY].NamesJson? {
        return None;
      }
      watched := cm[WATCHED_KEY].names;
    }
    r := NewData(cm[SERVICES_KEY].services, cm[FILES_KEY].files, envVars, watched, sorted);
  }

  /** The two required keys alone are enough, and then there are no variables. */
  lemma RequiredKeysSuffice(services: seq<Service>, files: seq<FileInfo>, sorted: seq<Service>)
    ensures var cm := map["services" := ServicesJson(services), "files" := FilesJson(files)];
            Parsed(cm, sorted) == if ValidServices(services) then Some(Data(sorted, files, map[], [])) else None
  {
    hide ValidServices;
    assert SERVICES_KEY[0] != FILES_KEY[0] && SERVICES_KEY[0] != ENV_VARS_KEY[0] && SERVICES_KEY[0] != WATCHED_KEY[0];
    assert FILES_KEY[0] != ENV_VARS_KEY[0] && FILES_KEY[0] != WATCHED_KEY[0];
    var cm := map[SERVICES_KEY := ServicesJson(services), FILES_KEY := FilesJson(files)];
    assert cm.Keys == {SERVICES_KEY, FILES_KEY};
    assert |cm| == |cm.Keys| == 2;
  }

  /** The comparison of parsed data with the expected data. */
  predicate ContentAsExpected(actual: Data, expected: Data) {
    && |actual.services| == |expected.services|
    && (forall s :: s in expected.services ==> s in actual.services)
    && |actual.files| == |expected.files|
    && (forall f :: f in expected.files ==> f in actual.files)
    && actual.environmentVars == expected.environmentVars
    && actual.watchedEnvironmentVars == expected.watchedEnvironmentVars
  }

  // Distinct names

  lemma DistinctSnoc(front: seq<Service>, s: Service)
    ensures DistinctNames(front + [s]) <==> DistinctNames(front) && s.name !in Names(front)
    ensures Names(front + [s]) == Names(front) + {s.name}
  {
    var services := front + [s];
    if DistinctNames(services) {
      forall i, j | 0 <= i < j < |front|
        ensures front[i].name != front[j].name
      {
        assert services[i] == front[i] && services[j] == front[j];
      }
      forall i | 0 <= i < |front|
        ensures front[i].name != s.name
      {
        assert services[i] == front[i] && services[|front|] == s;
      }
    }
  }

  lemma {:induction false} DistinctByCount(services: seq<Service>)
    ensures |Names(services)| <= |services|
    ensures DistinctNames(services) <==> |Names(services)| == |services|
    decreases |services|
  {
    if services != [] {
      var k := |services| - 1;
      var front, s := services[..k], services[k];
      assert services == front + [s];
      DistinctSnoc(front, s);
      DistinctByCount(front);
    }
  }

  lemma DistinctSorted(services: seq<Service>, sorted: seq<Service>)
    requires DistinctNames(services) && multiset(sorted) == multiset(services)
    ensures DistinctNames(sorted)
  {
    SameMembers(services, sorted);
    DistinctByCount(services);
    DistinctByCount(sorted);
  }

  // Order by priority

  /** Every managed dependency has a strictly lower number than its dependent. */
  ghost predicate PrioritiesOrdered(services: seq<Service>) {
    forall s, d :: s in services && d in services && d.name in s.dependencies ==> d.priority < s.priority
  }

  lemma SortedDependenciesEarlier(services: seq<Service>, i: nat, d: string)
    requires Sorted(services) && PrioritiesOrdered(services) && i < |services|
    requires d in services[i].dependencies && d in Names(services)
    ensures d in Names(services[..i])
  {
    var k :| 0 <= k < |services| && services[k].name == d;
    assert services[k].priority < services[i].priority;
    assert services[..i][k] == services[k];
  }

  lemma SortedDependenciesFirst(services: seq<Service>)
    requires DistinctNames(services) && Sorted(services) && PrioritiesOrdered(services)
    ensures DependenciesFirst(Dependencies(services), NameSeq(services))
  {
    hide Sorted, PrioritiesOrdered, DistinctNames, Dependencies;
    var t, names := Dependencies(services), NameSeq(services);
    forall i, d | 0 <= i < |names| && Edge(t, names[i], d) && d in t
      ensures d in names[..i]
    {
      DependenciesAt(services, i);
      SortedDependenciesEarlier(services, i, d);
      NameSeqPrefix(services, i, d);
    }
  }

  lemma NameSeqPrefix(services: seq<Service>, i: nat, d: string)
    requires i <= |services| && d in Names(services[..i])
    ensures d in NameSeq(services)[..i]
  {
    var k :| 0 <= k < i && services[..i][k].name == d;
    assert NameSeq(services)[..i][k] == d;
  }

  /** A sorted list whose managed dependencies are ordered by priority is valid again, whatever the order
      in which it was first accepted. */
  lemma StillValid(services: seq<Service>, sorted: seq<Service>)
    requires DistinctNames(services) && PrioritiesOrdered(services)
    requires ValidServices(services) && SortOf(services, sorted)
    ensures ValidServices(sorted)
  {
    hide DistinctNames, Dependencies, AcceptsServices, Accepts, Acyclic, DependenciesFirst, Sorted,
         BootstrapIndependent, PrioritiesValid, PrioritiesOrdered;
    MembersDecide(services, sorted);
    DistinctSorted(services, sorted);
    SortedDependenciesFirst(sorted);
    DistinctVerdict(sorted);
    DependenciesFirstAccepted(Dependencies(sorted), NameSeq(sorted));
  }

  /** These conditions do not depend on the order of the list. */
  lemma MembersDecide(services: seq<Service>, sorted: seq<Service>)
    requires multiset(sorted) == multiset(services)
    ensures BootstrapIndependent(services) ==> BootstrapIndependent(sorted)
    ensures PrioritiesValid(services) ==> PrioritiesValid(sorted)
    ensures PrioritiesOrdered(services) ==> PrioritiesOrdered(sorted)
  {
    SameMembers(services, sorted);
  }

  // Sending and reading back

  /** Data built from valid services survives being sent and read, up to the order of equal priorities,
      and the comparison with the original accepts it. */
  lemma RoundTrip(services: seq<Service>, data: Data, sorted: seq<Service>)
    requires DistinctNames(services) && PrioritiesOrdered(services)
    requires ValidServices(services) && SortOf(services, data.services)
    requires SortOf(data.services, sorted)
    ensures Parsed(Generate(data), sorted) == Some(data.(services := sorted))
    ensures ContentAsExpected(data.(services := sorted), data)
  {
    hide ValidServices, Generate, WellFormed, EnvVars, Watched, DistinctNames, PrioritiesOrdered;
    StillValid(services, data.services);
    SameMembers(data.services, sorted);
    GenerateDecodes(data);
  }

  /** Whatever the priorities, built data can be read back exactly when the cycle check still accepts the
      services in the order in which they were sent; no other part of the validation can refuse them. */
  lemma ReadableWhenAccepted(services: seq<Service>, data: Data, sorted: seq<Service>)
    requires ValidServices(services) && SortOf(services, data.services) && SortOf(data.services, sorted)
    ensures Parsed(Generate(data), sorted) ==
            if AcceptsServices(Dependencies(data.services), map[], data.services)
            then Some(data.(services := sorted)) else None
  {
    hide Generate, WellFormed, EnvVars, Watched, Dependencies, AcceptsServices, BootstrapIndependent, PrioritiesValid;
    MembersDecide(services, data.services);
    GenerateDecodes(data);
  }

  lemma DependenciesPermuted(services: seq<Service>, sorted: seq<Service>)
    requires DistinctNames(services) && multiset(sorted) == multiset(services)
    ensures Dependencies(sorted) == Dependencies(services)
  {
    hide Dependencies;
    SameMembers(services, sorted);
    DistinctSorted(services, sorted);
    forall n | n in Names(services)
      ensures Dependencies(sorted)[n] == Dependencies(services)[n]
    {
      var s := Named(services, n);
      assert s in services && s in sorted;
      var i :| 0 <= i < |services| && services[i] == s;
      var j :| 0 <= j < |sorted| && sorted[j] == s;
      DependenciesAt(services, i);
      DependenciesAt(sorted, j);
    }
  }

  /** The verdict on data from distinct names, by the order in which it was sent. */
  lemma ReadableByNames(services: seq<Service>, data: Data, sorted: seq<Service>)
    requires DistinctNames(services) && ValidServices(services)
    requires SortOf(services, data.services) && SortOf(data.services, sorted)
    ensures Orders(Dependencies(services), NameSeq(data.services))
    ensures Parsed(Generate(data), sorted) ==
            if Accepts(Dependencies(services), map[], NameSeq(data.services))
            then Some(data.(services := sorted)) else None
  {
    hide ValidServices, Parsed, Dependencies, AcceptsServices, Accepts, DistinctNames, Sorted;
    ReadableWhenAccepted(services, data, sorted);
    DistinctSorted(services, data.services);
    DistinctVerdict(data.services);
    DependenciesPermuted(services, data.services);
  }

  /** Without a chain of two managed dependencies, built data can be read back whatever the priorities. */
  lemma NoChainReadable(services: seq<Service>, data: Data, sorted: seq<Service>)
    requires DistinctNames(services) && ValidServices(services) && NoChain(Dependencies(services))
    requires SortOf(services, data.services) && SortOf(data.services, sorted)
    ensures Parsed(Generate(data), sorted) == Some(data.(services := sorted))
  {
    hide ValidServices, Parsed, Dependencies, Accepts, DistinctNames, Sorted, NoChain;
    ReadableByNames(services, data, sorted);
    NoChainAccepted(Dependencies(services), map[], NameSeq(data.services));
  }

  /** The services in the order of the names. */
  lemma Arranged(services: seq<Service>, names: seq<string>) returns (arranged: seq<Service>)
    requires DistinctNames(services) && Orders(Dependencies(services), names)
    ensures multiset(arranged) == multiset(services) && NameSeq(arranged) == names
  {
    hide Dependencies;
    assert forall n :: n in names <==> n in Names(services);
    arranged := seq(|names|, i requires 0 <= i < |names| => assert names[i] in names; Named(services, names[i]));
    assert NameSeq(arranged) == names;
    assert forall i, j :: 0 <= i < j < |names| ==> names[i] != names[j];
    assert DistinctNames(arranged);
    assert Names(arranged) == Names(services);
    DistinctByCount(services);
    DistinctByCount(arranged);
    PigeonHole(services, arranged);
  }

  /** Every data built from the services can be read back. */
  ghost predicate AlwaysReadable(services: seq<Service>) {
    forall data: Data, sorted :: SortOf(services, data.services) && SortOf(data.services, sorted) ==>
                                   Parsed(Generate(data), sorted) == Some(data.(services := sorted))
  }

  ghost predicate SamePriority(services: seq<Service>) {
    forall s, u :: s in services && u in services ==> s.priority == u.priority
  }

  lemma TiesSortAnyhow(services: seq<Service>, arranged: seq<Service>)
    requires SamePriority(services) && multiset(arranged) == multiset(services)
    ensures SortOf(services, arranged) && SortOf(arranged, arranged)
  {
    SameMembers(services, arranged);
  }

  lemma ChainUnreadable(services: seq<Service>) returns (data: Data)
    requires DistinctNames(services) && ValidServices(services) && Acyclic(Dependencies(services))
    requires SamePriority(services) && !NoChain(Dependencies(services))
    ensures SortOf(services, data.services) && SortOf(data.services, data.services)
    ensures Parsed(Generate(data), data.services) == None
  {
    hide ValidServices, Parsed, Dependencies, Accepts, DistinctNames, Acyclic, Generate, SamePriority, SortOf;
    var t := Dependencies(services);
    var u, v, w :| Edge(t, u, v) && Edge(t, v, w) && w in t;
    var names := ChainRefused(t, u, v, w);
    var arranged := Arranged(services, names);
    TiesSortAnyhow(services, arranged);
    data := Data(arranged, [], map[], []);
    ReadableByNames(services, data, arranged);
  }

  /** For acyclic services of one and the same priority, data can be read back whatever the tie-break exactly
      when there is no such chain. */
  lemma TiesReadable(services: seq<Service>)
    requires DistinctNames(services) && ValidServices(services) && Acyclic(Dependencies(services))
    requires SamePriority(services)
    ensures AlwaysReadable(services) <==> NoChain(Dependencies(services))
  {
    hide ValidServices, Parsed, Dependencies, DistinctNames, Acyclic, Generate, SamePriority, SortOf, NoChain;
    if NoChain(Dependencies(services)) {
      forall data: Data, sorted | SortOf(services, data.services) && SortOf(data.services, sorted)
        ensures Parsed(Generate(data), sorted) == Some(data.(services := sorted))
      {
        NoChainReadable(services, data, sorted);
      }
    } else {
      var data := ChainUnreadable(services);
    }
  }

  lemma GenerateDecodes(data: Data)
    ensures var cm := Generate(data);
            && WellFormed(cm)
            && cm[SERVICES_KEY].services == data.services
            && cm[FILES_KEY].files == data.files
            && EnvVars(cm) == data.environmentVars
            && Watched(cm) == data.watchedEnvironmentVars
  {
    assert SERVICES_KEY[0] != FILES_KEY[0] && SERVICES_KEY[0] != ENV_VARS_KEY[0] && SERVICES_KEY[0] != WATCHED_KEY[0];
    assert FILES_KEY[0] != ENV_VARS_KEY[0] && FILES_KEY[0] != WATCHED_KEY[0] && ENV_VARS_KEY[0] != WATCHED_KEY[0];
    var cm := Generate(data);
    if |data.environmentVars| > 0 {
      assert cm.Keys == {SERVICES_KEY, FILES_KEY, WATCHED_KEY, ENV_VARS_KEY};
    } else {
      assert cm.Keys == {SERVICES_KEY, FILES_KEY, WATCHED_KEY};
      assert data.environmentVars.Keys == {};
    }
    assert |cm| == |cm.Keys|;
  }

  lemma ThreeDependencies(x: Service, y: Service, z: Service)
    requires x.name != y.name && x.name != z.name && y.name != z.name
    ensures Dependencies([x, y, z]) ==
            map[x.name := x.dependencies, y.name := y.dependencies, z.name := z.dependencies]
    ensures DistinctNames([x, y, z]) && NameSeq([x, y, z]) == [x.name, y.name, z.name]
  {
    assert [x, y, z][..2] == [x, y] && [x, y][..1] == [x] && [x][..0] == [];
    assert Dependencies([]) == map[];
    assert Dependencies([x]) == map[x.name := x.dependencies];
    assert Dependencies([x, y]) == Dependencies([x])[y.name := y.dependencies];
    assert Dependencies([x, y, z]) == Dependencies([x, y])[z.name := z.dependencies];
  }

  lemma ThreeSorted(x: Service, y: Service, z: Service)
    requires x.priority <= y.priority <= z.priority
    ensures SortOf([z, x, y], [x, y, z]) && SortOf([x, y, z], [x, y, z])
  {
    assert [z, x, y] == [z] + [x, y] && [x, y, z] == [x, y] + [z];
  }

  /** For controller services below the largest priority only the cycle check matters. */
  lemma ControllersOnly(services: seq<Service>)
    requires DistinctNames(services)
    requires forall s :: s in services ==> !s.bootstrap && s.priority < 0xFFFF_FFFF_FFFF_FFFF
    ensures ValidServices(services) <==> Accepts(Dependencies(services), map[], NameSeq(services))
  {
    hide Dependencies, Accepts, AcceptsServices, DistinctNames;
    DistinctVerdict(services);
  }

  lemma ThreeControllers(x: Service, y: Service, z: Service)
    requires x.name != y.name && x.name != z.name && y.name != z.name
    requires forall s :: s in [x, y, z] ==> !s.bootstrap && s.priority < 0xFFFF_FFFF_FFFF_FFFF
    ensures DistinctNames([x, y, z])
    ensures ValidServices([x, y, z]) <==>
            Accepts(map[x.name := x.dependencies, y.name := y.dependencies, z.name := z.dependencies], map[],
                    [x.name, y.name, z.name])
  {
    hide Dependencies, Accepts, ValidServices, DistinctNames;
    ThreeDependencies(x, y, z);
    ControllersOnly([x, y, z]);
  }

  /** Without that order data can be built that cannot be read back: sorting puts a, which needs b, before c,
      which needs a, and leaves b for last. */
  lemma RoundTripFails(a: Service, b: Service, c: Service)
    requires a.name != b.name && a.name != c.name && b.name != c.name
    requires a.dependencies == [b.name] && c.dependencies == [a.name] && b.dependencies == []
    requires !a.bootstrap && !b.bootstrap && !c.bootstrap
    requires a.priority <= c.priority <= b.priority < 0xFFFF_FFFF_FFFF_FFFF
    ensures var services, sorted := [b, a, c], [a, c, b];
            && DistinctNames(services) && ValidServices(services) && SortOf(services, sorted)
            && forall data: Data :: data.services == sorted ==> Parsed(Generate(data), sorted) == None
  {
    hide Accepts, ValidServices, SortOf, DistinctNames, WellFormed, Generate, Acyclic, Orders;
    ThreeControllers(b, a, c);
    ThreeControllers(a, c, b);
    ThreeSorted(a, c, b);
    RefusesAcyclic(a.name, b.name, c.name);
    ChainMap(a.name, b.name, c.name);
    forall data: Data | data.services == [a, c, b]
      ensures Parsed(Generate(data), [a, c, b]) == None
    {
      GenerateDecodes(data);
    }
  }

  lemma ChainMap(a: string, b: string, c: string)
    requires a != b && a != c && b != c
    ensures map[b := [], a := [b], c := [a]] == Chain(a, b, c) == map[a := [b], c := [a], b := []]
  {
  }

  /** When the expected services and files are distinct, the comparison accepts exactly the data with a
      permutation of both and the same environment variables. */
  lemma AcceptsPermutations(actual: Data, expected: Data)
    requires forall i, j :: 0 <= i < j < |expected.services| ==> expected.services[i] != expected.services[j]
    requires forall i, j :: 0 <= i < j < |expected.files| ==> expected.files[i] != expected.files[j]
    ensures ContentAsExpected(actual, expected) <==>
            && multiset(actual.services) == multiset(expected.services)
            && multiset(actual.files) == multiset(expected.files)
            && actual.environmentVars == expected.environmentVars
            && actual.watchedEnvironmentVars == expected.watchedEnvironmentVars
  {
    if ContentAsExpected(actual, expected) {
      PigeonHole(actual.services, expected.services);
      PigeonHole(actual.files, expected.files);
    }
    if multiset(actual.services) == multiset(expected.services) {
      SameMultiset(actual.services, expected.services);
    }
    if multiset(actual.files) == multiset(expected.files) {
      SameMultiset(actual.files, expected.files);
    }
  }

  // Bootstrap services

  function BootstrapPrefix(services: seq<Service>): seq<Service> {
    if services == [] || !services[0].bootstrap then [] else [services[0]] + BootstrapPrefix(services[1..])
  }

  function BootstrapFilter(services: seq<Service>): seq<Service> {
    if services == [] then []
    else (if services[0].bootstrap then [services[0]] else []) + BootstrapFilter(services[1..])
  }

  method GetBootstrapServices(data: Data) returns (bootstrap: seq<Service>)
    ensures bootstrap == BootstrapPrefix(data.services)
  {
    bootstrap := [];
    for i := 0 to |data.services|
      invariant BootstrapPrefix(data.services) == bootstrap + BootstrapPrefix(data.services[i..])
    {
      if !data.services[i].bootstrap {
        break;
      }
      bootstrap := bootstrap + [data.services[i]];
    }
  }

  /** Stopping at the first controller service loses no bootstrap service of a valid, sorted list. */
  lemma {:induction false} PrefixIsFilter(services: seq<Service>)
    requires Sorted(services) && Separated(services)
    ensures BootstrapPrefix(services) == BootstrapFilter(services)
    ensures BootstrapPrefix(services) <= services
    decreases |services|
  {
    if services != [] {
      PrefixIsFilter(services[1..]);
      if !services[0].bootstrap {
        forall s | s in services[1..]
          ensures !s.bootstrap
        {
          assert services[0] in services && s in services && services[0].priority <= s.priority;
        }
        NothingToFilter(services[1..]);
      }
    }
  }

  lemma NothingToFilter(services: seq<Service>)
    requires forall s :: s in services ==> !s.bootstrap
    ensures BootstrapFilter(services) == []
  {
  }

  lemma {:induction false} FilterMembers(services: seq<Service>, s: Service)
    ensures s in BootstrapFilter(services) <==> s in services && s.bootstrap
    decreases |services|
  {
    if services != [] {
      FilterMembers(services[1..], s);
    }
  }

  /** Bootstrap services reach, through managed dependencies, bootstrap services only. */
  lemma {:induction false} BootstrapClosed(services: seq<Service>, b: Service, p: seq<string>, d: Service)
    requires DistinctNames(services) && BootstrapIndependent(services)
    requires b in services && d in services && b.bootstrap
    requires Path(Dependencies(services), b.name, p, d.name)
    ensures d.bootstrap
    decreases |p|
  {
    var i :| 0 <= i < |services| && services[i] == b;
    DependenciesAt(services, i);
    if p != [] {
      var n := p[0];
      assert n in Dependencies(services) by {
        if p[1..] != [] {
          assert Edge(Dependencies(services), n, p[1..][0]);
        }
      }
      var c :| c in services && c.name == n;
      BootstrapClosed(services, c, p[1..], d);
    }
  }

  // From the ConfigMap to the daemon

  /** A valid, sorted list whose unmanaged dependencies do not lead back to it is what reconciliation needs;
      so is its bootstrap prefix. */
  lemma SortedIsWellOrdered(t: Topology, services: seq<Service>, k: nat)
    requires DistinctNames(services) && Sorted(services) && PrioritiesOrdered(services) && k <= |services|
    requires forall s, d :: s in services && d in s.dependencies && d !in Names(services) ==> Foreign(t, services, d)
    ensures WellOrdered(t, services[..k])
  {
    var head := services[..k];
    assert Names(head) <= Names(services);
    forall i, d | 0 <= i < |head| && d in head[i].dependencies
      ensures d in Names(head[..i]) || Foreign(t, head, d)
    {
      assert head[..i] == services[..i] && head[i] in services;
      if d in Names(services) {
        SortedDependenciesEarlier(services, i, d);
      }
    }
  }
}
