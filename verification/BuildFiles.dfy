/**
 Which build file stands for a directory (internal/analyzer/service_detector.go, the file walk
 and `registerModule`). Files are offered one by one; the rules decide whether an offer replaces
 the one already there.
 */
module BuildFiles {
  import opened Options
  import opened Sequences
  import opened Strings

  datatype ModuleInfo = ModuleInfo(dir: string, tool: string, file: string)

  /** A file met by the walk: its directory and name. */
  datatype Entry = Entry(dir: string, name: string)

  /** A recognised build file; `bySuffix` marks one recognised by its extension. */
  datatype Offer = Offer(info: ModuleInfo, bySuffix: bool)

  function BuildTool(name: string): Option<string> {
    if name == "pom.xml" then Some("maven")
    else if name in {"build.gradle", "build.gradle.kts", "settings.gradle", "settings.gradle.kts"} then Some("gradle")
    else if name == "build.xml" then Some("ant")
    else if name == "build.sbt" then Some("sbt")
    else if name == "project.clj" then Some("leiningen")
    else if name == "package.json" then Some("npm")
    else if name in {"deno.json", "deno.jsonc"} then Some("deno")
    else if name == "go.mod" then Some("go")
    else if name == "Cargo.toml" then Some("cargo")
    else if name in {"pyproject.toml", "setup.py", "setup.cfg", "Pipfile", "requirements.txt"} then Some("python")
    else if name == "manage.py" then Some("django")
    else if name == "Gemfile" then Some("ruby")
    else if name == "composer.json" then Some("php")
    else if name == "Directory.Build.props" then Some("dotnet")
    else if name == "Package.swift" then Some("swift")
    else if name == "mix.exs" then Some("elixir")
    else if name == "pubspec.yaml" then Some("dart")
    else if name == "stack.yaml" then Some("haskell")
    else if name == "build.zig" then Some("zig")
    else if name == "dune-project" then Some("ocaml")
    else if name == "DESCRIPTION" then Some("r")
    else if name in {"BUILD", "BUILD.bazel"} then Some("bazel")
    else if name == "nx.json" then Some("nx")
    else if name == "lerna.json" then Some("lerna")
    else if name == "turbo.json" then Some("turbo")
    else if name == "rush.json" then Some("rush")
    else if name in {"Dockerfile", "docker-compose.yml", "docker-compose.yaml", "compose.yml", "compose.yaml"} then Some("docker")
    else None
  }

  function SuffixTool(name: string): Option<string> {
    if HasSuffix(name, ".csproj") || HasSuffix(name, ".fsproj") || HasSuffix(name, ".vbproj") then Some("dotnet")
    else if HasSuffix(name, ".gemspec") then Some("ruby")
    else if HasSuffix(name, ".cabal") then Some("haskell")
    else if HasSuffix(name, ".nimble") then Some("nim")
    else None
  }

  predicate IsSupplemental(tool: string) {
    tool in {"docker", "nx", "lerna", "turbo", "rush"}
  }

  predicate IsPython(tool: string) {
    tool == "python" || tool == "django"
  }

  const PYTHON_BUILD_FILES := ["pyproject.toml", "setup.py", "requirements.txt", "manage.py"]

  function PriorityFrom(file: string, i: nat): nat
    requires i <= |PYTHON_BUILD_FILES|
    decreases |PYTHON_BUILD_FILES| - i
  {
    if i == |PYTHON_BUILD_FILES| || PYTHON_BUILD_FILES[i] == file then i else PriorityFrom(file, i + 1)
  }

  function PythonPriority(file: string): nat {
    PriorityFrom(file, 0)
  }

  lemma {:induction false} PriorityFromIsPlace(file: string, i: nat)
    requires i <= |PYTHON_BUILD_FILES|
    ensures var at := PriorityFrom(file, i);
            && i <= at <= |PYTHON_BUILD_FILES| && (forall k :: i <= k < at ==> PYTHON_BUILD_FILES[k] != file)
            && (at < |PYTHON_BUILD_FILES| ==> PYTHON_BUILD_FILES[at] == file)
    decreases |PYTHON_BUILD_FILES| - i
  {
    if i == |PYTHON_BUILD_FILES| || PYTHON_BUILD_FILES[i] == file {
    } else {
      PriorityFromIsPlace(file, i + 1);
    }
  }

  /** The priority of a Python build file is its place in the list. */
  lemma PriorityIsPlace(file: string)
    ensures var files := ["pyproject.toml", "setup.py", "requirements.txt", "manage.py"];
            && PythonPriority(file) <= |files| && file !in files[..PythonPriority(file)]
            && (PythonPriority(file) < |files| ==> files[PythonPriority(file)] == file)
  {
    assert PYTHON_BUILD_FILES == ["pyproject.toml", "setup.py", "requirements.txt", "manage.py"];
    PriorityFromIsPlace(file, 0);
  }

  predicate IsGradleSettings(info: ModuleInfo) {
    info.tool == "gradle" && "settings." <= info.file
  }

  function OfferOf(e: Entry): Option<Offer> {
    if SuffixTool(e.name).Some? then Some(Offer(ModuleInfo(e.dir, SuffixTool(e.name).value, e.name), true))
    else if BuildTool(e.name).Some? then Some(Offer(ModuleInfo(e.dir, BuildTool(e.name).value, e.name), false))
    else None
  }

  /** Recognised by suffix or supplemental: never replaces anything. */
  predicate IsWeak(o: Offer) {
    o.bySuffix || IsSupplemental(o.info.tool)
  }

  predicate IsPythonOffer(o: Offer) {
    !IsWeak(o) && IsPython(o.info.tool)
  }

  predicate IsSettings(o: Offer) {
    !IsWeak(o) && IsGradleSettings(o.info)
  }

  /** A build file of its own right: replaces whatever is there. */
  predicate IsPlain(o: Offer) {
    !IsWeak(o) && !IsPythonOffer(o) && !IsSettings(o)
  }

  // ---- the table the walk fills ----

  predicate Replaces(existing: ModuleInfo, o: Offer) {
    && !IsWeak(o)
    && (IsPython(o.info.tool) ==> IsPython(existing.tool) && PythonPriority(o.info.file) < PythonPriority(existing.file))
    && (IsGradleSettings(o.info) ==> existing.tool != "gradle")
  }

  function Take(modules: map<string, ModuleInfo>, o: Offer): map<string, ModuleInfo> {
    var dir := o.info.dir;
    if dir !in modules || Replaces(modules[dir], o) then modules[dir := o.info] else modules
  }

  function TakeAll(offers: seq<Offer>): map<string, ModuleInfo> {
    if offers == [] then map[] else Take(TakeAll(offers[..|offers| - 1]), offers[|offers| - 1])
  }

  function OffersOf(entries: seq<Entry>): seq<Offer> {
    if entries == [] then []
    else
      var o := OfferOf(entries[|entries| - 1]);
      OffersOf(entries[..|entries| - 1]) + if o.Some? then [o.value] else []
  }

  lemma TakeAllStep(offers: seq<Offer>, o: Offer)
    ensures TakeAll(offers + [o]) == Take(TakeAll(offers), o)
  {
    assert (offers + [o])[..|offers|] == offers;
  }

  class ModuleTable {
    var modules: map<string, ModuleInfo>

    constructor ()
      ensures modules == map[]
    {
      modules := map[];
    }

    method RegisterModule(dir: string, tool: string, file: string)
      modifies this
      ensures modules == Take(old(modules), Offer(ModuleInfo(dir, tool, file), false))
    {
      var present := dir in modules;
      if IsSupplemental(tool) && present {
        return;
      }
      if present && IsPython(tool) && !IsPython(modules[dir].tool) {
        return;
      }
      if present && IsPython(tool) && IsPython(modules[dir].tool) {
        if PythonPriority(file) >= PythonPriority(modules[dir].file) {
          return;
        }
      }
      if tool == "gradle" && present && modules[dir].tool == "gradle" && "settings." <= file {
        return;
      }
      modules := modules[dir := ModuleInfo(dir, tool, file)];
    }

    method Visit(e: Entry)
      modifies this
      ensures modules == if OfferOf(e).Some? then Take(old(modules), OfferOf(e).value) else old(modules)
    {
      hide BuildTool, SuffixTool;
      if SuffixTool(e.name).Some? {
        if e.dir !in modules {
          modules := modules[e.dir := ModuleInfo(e.dir, SuffixTool(e.name).value, e.name)];
        }
        return;
      }
      if BuildTool(e.name).Some? {
        RegisterModule(e.dir, BuildTool(e.name).value, e.name);
      }
    }

    /** The walk's callback on every file outside the pruned directories. */
    method Walk(entries: seq<Entry>)
      requires modules == map[]
      modifies this
      ensures modules == TakeAll(OffersOf(entries))
    {
      for i := 0 to |entries|
        invariant modules == TakeAll(OffersOf(entries[..i]))
      {
        hide BuildTool, SuffixTool, Take;
        assert entries[..i + 1][..i] == entries[..i];
        Visit(entries[i]);
        if OfferOf(entries[i]).Some? {
          TakeAllStep(OffersOf(entries[..i]), OfferOf(entries[i]).value);
        } else {
          assert OffersOf(entries[..i]) + [] == OffersOf(entries[..i]);
        }
      }
      assert entries[..|entries|] == entries;
    }
  }

  // ---- directories do not interfere ----

  function InDir(dir: string): Offer -> bool {
    (o: Offer) => o.info.dir == dir
  }

  /** What a directory ends up with depends on its own files only. */
  lemma {:induction false} DirectoriesAreIndependent(offers: seq<Offer>, dir: string)
    ensures dir in TakeAll(offers) <==> Filter(InDir(dir), offers) != []
    ensures dir in TakeAll(offers) ==> dir in TakeAll(Filter(InDir(dir), offers))
    ensures dir in TakeAll(offers) ==> TakeAll(offers)[dir] == TakeAll(Filter(InDir(dir), offers))[dir]
  {
    if offers == [] {
    } else {
      var front, last := offers[..|offers| - 1], offers[|offers| - 1];
      DirectoriesAreIndependent(front, dir);
      if last.info.dir == dir {
        TakeAllStep(Filter(InDir(dir), front), last);
        if Filter(InDir(dir), front) == [] {
          assert TakeAll([]) == map[];
        }
      } else {
        assert Filter(InDir(dir), front) + [] == Filter(InDir(dir), front);
      }
    }
  }

  // ---- who survives in one directory ----

  /** What the tables can offer: suffix tools and supplemental tools are neither Python nor Gradle. */
  predicate Proper(o: Offer) {
    o.bySuffix ==> o.info.tool in {"dotnet", "ruby", "haskell", "nim"}
  }

  ghost predicate OfferedTo(offers: seq<Offer>, dir: string) {
    forall i :: 0 <= i < |offers| ==> offers[i].info.dir == dir && Proper(offers[i])
  }

  ghost predicate NoneIn(offers: seq<Offer>, kind: Offer -> bool, lo: nat, hi: nat) {
    forall i :: lo <= i < hi && i < |offers| ==> !kind(offers[i])
  }

  /**
   The offer that stands for the directory:
   a weak one only if it came first and nothing but weak and Python files followed;
   a Python one if no plain or settings file came and no weak file came before all of them, the first of least priority index;
   a settings file if it is the first since the last plain file, which is not a Gradle one;
   a plain file if it is the last plain one and, unless it is a Gradle one, no settings file followed.
   */
  ghost predicate Wins(offers: seq<Offer>, w: nat)
    requires w < |offers|
  {
    var o := offers[w];
    if IsWeak(o) then
      w == 0 && NoneIn(offers, IsPlain, 0, |offers|) && NoneIn(offers, IsSettings, 0, |offers|)
    else if IsPythonOffer(o) then
      && NoneIn(offers, IsPlain, 0, |offers|) && NoneIn(offers, IsSettings, 0, |offers|)
      && !IsWeak(offers[0])
      && (forall i :: 0 <= i < |offers| && IsPythonOffer(offers[i]) ==>
            PythonPriority(o.info.file) <= PythonPriority(offers[i].info.file))
      && (forall i :: 0 <= i < w && IsPythonOffer(offers[i]) ==>
            PythonPriority(o.info.file) < PythonPriority(offers[i].info.file))
    else if IsSettings(o) then
      && NoneIn(offers, IsPlain, w, |offers|)
      && (forall i :: 0 <= i < w && (IsSettings(offers[i]) || (IsPlain(offers[i]) && offers[i].info.tool == "gradle")) ==>
            !NoneIn(offers, IsPlain, i + 1, w))
    else
      && NoneIn(offers, IsPlain, w + 1, |offers|)
      && (o.info.tool == "gradle" || NoneIn(offers, IsSettings, w + 1, |offers|))
  }

  lemma WinnerStep(offers: seq<Offer>, w: nat, o: Offer, dir: string)
    requires w < |offers| && OfferedTo(offers + [o], dir) && Wins(offers, w)
    ensures Wins(offers + [o], if Replaces(offers[w].info, o) then |offers| else w)
  {
    hide PythonPriority;
    var all := offers + [o];
    assert forall i :: 0 <= i < |offers| ==> all[i] == offers[i];
    assert Proper(all[w]) && Proper(all[|offers|]);
    if IsWeak(o) {
    } else if IsPythonOffer(o) {
    } else if IsSettings(o) {
      if Replaces(offers[w].info, o) {
        forall i | 0 <= i < |offers| && (IsSettings(all[i]) || (IsPlain(all[i]) && all[i].info.tool == "gradle"))
          ensures !NoneIn(all, IsPlain, i + 1, |offers|)
        {
          if IsPlain(offers[w]) {
            assert i < w;
            assert IsPlain(all[w]);
          }
        }
      }
    } else {
      assert IsPlain(o);
    }
  }

  /** The offer left in the table is the winner. */
  lemma {:induction false} SurvivorWins(offers: seq<Offer>, dir: string) returns (w: nat)
    requires offers != [] && OfferedTo(offers, dir)
    ensures w < |offers| && Wins(offers, w)
    ensures dir in TakeAll(offers) && TakeAll(offers)[dir] == offers[w].info
  {
    var front, last := offers[..|offers| - 1], offers[|offers| - 1];
    assert offers == front + [last];
    TakeAllStep(front, last);
    if front == [] {
      w := 0;
    } else {
      var v := SurvivorWins(front, dir);
      WinnerStep(front, v, last, dir);
      w := if Replaces(front[v].info, last) then |front| else v;
    }
  }

  lemma {:induction false} OffersAreProper(entries: seq<Entry>)
    ensures forall o :: o in OffersOf(entries) ==> Proper(o)
  {
    hide BuildTool;
    if entries == [] {
    } else {
      OffersAreProper(entries[..|entries| - 1]);
    }
  }

  lemma WinnerIsUnique(offers: seq<Offer>, v: nat, w: nat, dir: string)
    requires OfferedTo(offers, dir) && v < |offers| && w < |offers| && Wins(offers, v) && Wins(offers, w)
    ensures v == w
  {
    hide PythonPriority;
    assert Proper(offers[v]) && Proper(offers[w]);
  }

  /** After any walk, a directory has an entry exactly when it held a build file, and the entry is its one winner. */
  lemma WalkLeavesWinners(entries: seq<Entry>, dir: string) returns (offers: seq<Offer>)
    ensures offers == Filter(InDir(dir), OffersOf(entries))
    ensures dir in TakeAll(OffersOf(entries)) <==> offers != []
    ensures offers != [] ==>
              exists w: nat ::
                w < |offers| && Wins(offers, w) && TakeAll(OffersOf(entries))[dir] == offers[w].info &&
                (forall v: nat :: v < |offers| && Wins(offers, v) ==> v == w)
  {
    offers := Filter(InDir(dir), OffersOf(entries));
    OffersAreProper(entries);
    DirectoriesAreIndependent(OffersOf(entries), dir);
    forall i | 0 <= i < |offers|
      ensures offers[i].info.dir == dir && Proper(offers[i])
    {
      assert offers[i] in offers;
      FilterMember(InDir(dir), OffersOf(entries), offers[i]);
    }
    hide Wins, TakeAll;
    if offers != [] {
      var w := SurvivorWins(offers, dir);
      forall v: nat | v < |offers| && Wins(offers, v)
        ensures v == w
      {
        WinnerIsUnique(offers, v, w, dir);
      }
    }
  }

  /** Fed only Python build files, a directory keeps the first of least priority index. */
  lemma PythonDirectory(offers: seq<Offer>, dir: string) returns (w: nat)
    requires offers != [] && OfferedTo(offers, dir) && forall i :: 0 <= i < |offers| ==> IsPythonOffer(offers[i])
    ensures w < |offers| && dir in TakeAll(offers) && TakeAll(offers)[dir] == offers[w].info
    ensures forall i :: 0 <= i < |offers| ==> PythonPriority(offers[w].info.file) <= PythonPriority(offers[i].info.file)
    ensures forall i :: 0 <= i < w ==> PythonPriority(offers[w].info.file) < PythonPriority(offers[i].info.file)
  {
    w := SurvivorWins(offers, dir);
  }

  /** A supplemental file met before Python build files keeps the directory. */
  lemma SupplementalBeforePythonStays(offers: seq<Offer>, dir: string)
    requires offers != [] && OfferedTo(offers, dir)
    requires IsWeak(offers[0]) && forall i :: 0 < i < |offers| ==> IsPythonOffer(offers[i])
    ensures dir in TakeAll(offers) && TakeAll(offers)[dir] == offers[0].info
  {
    var w := SurvivorWins(offers, dir);
  }

  lemma NoSuffixTool(name: string)
    requires |name| >= 8 && name[|name| - 6] != '.' && name[|name| - 7] != '.' && name[|name| - 8] != '.'
    ensures SuffixTool(name).None?
  {
    forall suffix | suffix in {".csproj", ".fsproj", ".vbproj", ".gemspec", ".cabal", ".nimble"}
      ensures !HasSuffix(name, suffix)
    {
      assert suffix[0] == '.' && |suffix| in {6, 7, 8};
      assert name[|name| - |suffix|..][0] == name[|name| - |suffix|];
    }
  }

  lemma OfferOfKnown(dir: string, name: string, tool: string)
    requires |name| >= 8 && name[|name| - 6] != '.' && name[|name| - 7] != '.' && name[|name| - 8] != '.'
    requires BuildTool(name) == Some(tool)
    ensures OfferOf(Entry(dir, name)) == Some(Offer(ModuleInfo(dir, tool, name), false))
  {
    NoSuffixTool(name);
  }

  lemma OffersOfTwo(d: Entry, p: Entry, docker: Offer, python: Offer)
    requires OfferOf(d) == Some(docker) && OfferOf(p) == Some(python)
    ensures OffersOf([d, p]) == [docker, python]
  {
    hide OfferOf;
    assert [d, p][..1] == [d] && [d][..0] == [];
    assert OffersOf([d]) == [docker];
  }

  lemma DockerfileAndPyproject(dir: string)
    ensures OfferOf(Entry(dir, "Dockerfile")) == Some(Offer(ModuleInfo(dir, "docker", "Dockerfile"), false))
    ensures OfferOf(Entry(dir, "pyproject.toml")) == Some(Offer(ModuleInfo(dir, "python", "pyproject.toml"), false))
  {
    hide OfferOf, SuffixTool, HasSuffix;
    OfferOfKnown(dir, "Dockerfile", "docker");
    OfferOfKnown(dir, "pyproject.toml", "python");
  }

  /** In walk order `Dockerfile` comes before `pyproject.toml`, so the service counts as a docker one. */
  lemma DockerfileHidesPyproject(dir: string)
    ensures var modules := TakeAll(OffersOf([Entry(dir, "Dockerfile"), Entry(dir, "pyproject.toml")]));
            dir in modules && modules[dir] == ModuleInfo(dir, "docker", "Dockerfile")
  {
    var docker, python := Offer(ModuleInfo(dir, "docker", "Dockerfile"), false), Offer(ModuleInfo(dir, "python", "pyproject.toml"), false);
    DockerfileAndPyproject(dir);
    OffersOfTwo(Entry(dir, "Dockerfile"), Entry(dir, "pyproject.toml"), docker, python);
    hide OfferOf, OffersOf, TakeAll;
    assert IsWeak(docker) && IsPythonOffer(python);
    SupplementalBeforePythonStays([docker, python], dir);
  }
}
