/** Recursive loading of shared objects: the module table, the symbol table and the initialisation queue. */
module Loader {
  datatype Symbol = Symbol(name: string, addr: int, weak: bool)

  datatype Soname = NoSoname | Soname(name: string)

  /** What parsing a file yields. `exported` holds the named exports, already relocated by the file's load base. */
  datatype Elf = Elf(
    parses: bool, placed: bool, base: int, soname: Soname, exported: seq<Symbol>, needed: seq<string>,
    imports: seq<string>, relocates: bool, appShipped: bool)

  /** The files a path resolves to. */
  type Files = map<string, Elf>

  datatype Module = Module(name: string, path: string, base: int)

  datatype Error = FileNotFound | Unusable | CircularDependency | UnhandledRelocation

  datatype Result = Loaded(m: Module) | Failed(error: Error)

  datatype Deferred = Deferred(m: string, symbol: string)

  function Basename(path: string): string
    decreases |path|
  {
    if path == "" then ""
    else
      var n := |path| - 1;
      if path[n] == '/' || path[n] == '\\' then "" else Basename(path[..n]) + [path[n]]
  }

  predicate IsSeparator(c: char) { c == '/' || c == '\\' }

  predicate IsName(s: string) { forall i :: 0 <= i < |s| ==> !IsSeparator(s[i]) }

  /** The base name is what follows the last separator, or the whole path when there is none. */
  lemma {:induction false} BasenameIsLastPart(path: string)
    ensures var b := Basename(path);
      && IsName(b) && |b| <= |path| && path[|path| - |b|..] == b
      && (|b| < |path| ==> IsSeparator(path[|path| - |b| - 1]))
    decreases |path|
  {
    if path != "" && Basename(path) != "" {
      var n := |path| - 1;
      BasenameIsLastPart(path[..n]);
      assert path == path[..n] + [path[n]];
    }
  }

  /** A file in a directory has the same base name as the file alone. */
  lemma BasenameIn(directory: string, name: string)
    requires IsName(name)
    ensures Basename(directory + "/" + name) == name && Basename(name) == name
  {
    var path := directory + "/" + name;
    assert path[|directory| + 1..] == name && path[|directory|] == '/';
    hide Basename;
    BasenameIsLastPart(path);
    BasenameIsLastPart(name);
  }

  /** A load of `path` reaches the registration of its module. */
  predicate Loads(files: Files, path: string) {
    path in files && files[path].parses && files[path].placed
  }

  // ------------------------------------------------------------------ the dependency graph

  /** The file at `path` can be found in the module table under `key`. */
  predicate Answers(files: Files, path: string, key: string)
    requires path in files
  {
    key == Basename(path) || (files[path].soname.Soname? && files[path].soname.name == key)
  }

  ghost predicate Needs(files: Files, p: string, q: string) {
    p in files && q in files && exists d :: d in files[p].needed && Answers(files, q, Basename(d))
  }

  ghost predicate Chained(files: Files, chain: seq<string>) {
    && (forall i :: 0 <= i < |chain| ==> chain[i] in files)
    && (forall i :: 0 < i < |chain| ==> Needs(files, chain[i - 1], chain[i]))
  }

  ghost predicate Route(files: Files, chain: seq<string>, a: string, b: string) {
    chain != [] && chain[0] == a && chain[|chain| - 1] == b && Chained(files, chain)
  }

  ghost predicate Reaches(files: Files, a: string, b: string) { exists chain :: Route(files, chain, a, b) }

  lemma ChainReaches(files: Files, chain: seq<string>, i: nat)
    requires i < |chain| && Chained(files, chain)
    ensures Reaches(files, chain[i], chain[|chain| - 1])
  {
    assert Route(files, chain[i..], chain[i], chain[|chain| - 1]);
  }

  /** A ranking that every dependency lowers: the graph has no cycle. */
  ghost predicate Acyclic(files: Files, rank: map<string, nat>) {
    && (forall p :: p in files ==> p in rank)
    && (forall p, q :: p in files && q in files && Needs(files, p, q) ==> rank[q] < rank[p])
  }

  lemma {:induction false} RouteRank(files: Files, rank: map<string, nat>, chain: seq<string>)
    requires Acyclic(files, rank) && chain != [] && Chained(files, chain)
    ensures rank[chain[|chain| - 1]] <= rank[chain[0]]
    decreases |chain|
  {
    if |chain| > 1 {
      assert Needs(files, chain[0], chain[1]);
      RouteRank(files, rank, chain[1..]);
    }
  }

  // ------------------------------------------------------------------ the symbol table

  /** The first strong definition in registration order, else the first weak one. */
  function Winner(log: seq<Symbol>, name: string): (r: int)
    ensures -1 <= r < |log|
    ensures r == -1 <==> forall i :: 0 <= i < |log| ==> log[i].name != name
    ensures r >= 0 ==> log[r].name == name
    ensures r >= 0 && log[r].weak ==> forall i :: 0 <= i < |log| && log[i].name == name ==> log[i].weak && r <= i
    ensures r >= 0 && !log[r].weak ==> forall i :: 0 <= i < |log| && log[i].name == name && !log[i].weak ==> r <= i
    decreases |log|
  {
    if log == [] then -1
    else
      var n := |log| - 1;
      var before := Winner(log[..n], name);
      if log[n].name == name && (before == -1 || (log[before].weak && !log[n].weak)) then n else before
  }

  ghost predicate Entry(log: seq<Symbol>, exports: map<string, int>, weak: map<string, bool>, name: string) {
    var r := Winner(log, name);
    && (name in exports <==> r >= 0) && (name in weak <==> r >= 0)
    && (r >= 0 ==> exports[name] == log[r].addr && weak[name] == log[r].weak)
  }

  /** The two dictionaries hold, for each registered name, the address and binding of its winner. */
  ghost predicate Table(log: seq<Symbol>, exports: map<string, int>, weak: map<string, bool>) {
    forall name :: Entry(log, exports, weak, name)
  }

  predicate Overrides(weak: map<string, bool>, s: Symbol) { s.name !in weak || (weak[s.name] && !s.weak) }

  lemma TableGrows(log: seq<Symbol>, exports: map<string, int>, weak: map<string, bool>, s: Symbol)
    requires Table(log, exports, weak)
    ensures Overrides(weak, s) ==> Table(log + [s], exports[s.name := s.addr], weak[s.name := s.weak])
    ensures !Overrides(weak, s) ==> Table(log + [s], exports, weak)
  {
    assert (log + [s])[..|log|] == log;
    var won := Overrides(weak, s);
    var exports' := if won then exports[s.name := s.addr] else exports;
    var weak' := if won then weak[s.name := s.weak] else weak;
    forall name
      ensures Entry(log + [s], exports', weak', name)
    {
      assert Entry(log, exports, weak, name);
      WinnerGrows(log, s, name);
    }
    assert Table(log + [s], exports', weak');
  }

  lemma WinnerGrows(log: seq<Symbol>, s: Symbol, name: string)
    ensures var r := Winner(log, name);
            Winner(log + [s], name) ==
              if s.name == name && (r == -1 || (log[r].weak && !s.weak)) then |log| else r
  {
    assert (log + [s])[..|log|] == log;
  }

  lemma TableKeys(log: seq<Symbol>, exports: map<string, int>, weak: map<string, bool>)
    requires Table(log, exports, weak)
    ensures exports.Keys == weak.Keys
  {
    forall name
      ensures name in exports <==> name in weak
    {
      assert Entry(log, exports, weak, name);
    }
  }

  // ------------------------------------------------------------------ what every load keeps

  ghost predicate Known(files: Files, modules: map<string, Module>) {
    forall k :: k in modules ==>
      var m := modules[k];
      && Loads(files, m.path) && m.name == Basename(m.path) && Answers(files, m.path, k)
      && m.name in modules && modules[m.name] == m
  }

  /** The names being loaded are those of `chain`, each file needed by the one before it, and all are registered. */
  ghost predicate InFlight(files: Files, modules: map<string, Module>, loading: set<string>, chain: seq<string>) {
    && Chained(files, chain)
    && (forall i :: 0 <= i < |chain| ==>
          && Basename(chain[i]) in loading && Basename(chain[i]) in modules
          && modules[Basename(chain[i])].path == chain[i])
    && (forall n :: n in loading ==> exists i :: 0 <= i < |chain| && n == Basename(chain[i]))
  }

  ghost predicate Queued(modules: map<string, Module>, queue: seq<Module>) {
    && (forall i :: 0 <= i < |queue| ==> queue[i].name in modules && modules[queue[i].name] == queue[i])
    && (forall i, j :: 0 <= i < j < |queue| ==> queue[i] != queue[j])
  }

  ghost predicate NotLoading(loading: set<string>, queue: seq<Module>) {
    forall i :: 0 <= i < |queue| ==> queue[i].name !in loading
  }

  /** Dependency `d` of queue entry `i`: registered, and ahead of `i` or finished, unless the two lie on a cycle. */
  ghost predicate Settled(
    files: Files, modules: map<string, Module>, loading: set<string>, queue: seq<Module>, i: nat, d: string)
    requires i < |queue|
  {
    && Basename(d) in modules
    && (forall j :: i <= j < |queue| && queue[j] == modules[Basename(d)] ==>
          Reaches(files, queue[j].path, queue[i].path))
    && (modules[Basename(d)].name in loading ==> Reaches(files, modules[Basename(d)].path, queue[i].path))
  }

  /** `seen[i]` lists the dependencies found in the module table when entry `i` was queued. */
  ghost predicate Ordered(files: Files, modules: map<string, Module>, loading: set<string>, queue: seq<Module>,
                          seen: seq<set<string>>)
  {
    && |seen| == |queue|
    && (forall i: nat, d :: i < |queue| && d in seen[i] ==> Settled(files, modules, loading, queue, i, d))
    && (forall i :: 0 <= i < |queue| ==> Resolved(files, queue[i].path, seen[i]))
  }

  /** At least the dependencies that can be loaded, and only dependencies. */
  ghost predicate Resolved(files: Files, path: string, seen: set<string>) {
    && path in files
    && (forall d :: d in seen ==> d in files[path].needed)
    && (forall d :: d in files[path].needed && Loads(files, d) ==> d in seen)
  }

  /** `loads` lists the modules registered so far, one entry each. */
  ghost predicate Once(modules: map<string, Module>, loads: seq<Module>) {
    && (forall i :: 0 <= i < |loads| ==> loads[i].name in modules && modules[loads[i].name] == loads[i])
    && (forall i, j :: 0 <= i < j < |loads| ==> loads[i].name != loads[j].name)
    && (forall k :: k in modules ==> modules[k] in loads)
  }

  /** What every load keeps of the module table, the names being loaded, and the queue. */
  ghost predicate Kept(files: Files, modules: map<string, Module>, loading: set<string>, chain: seq<string>,
                       queue: seq<Module>, seen: seq<set<string>>, loads: seq<Module>)
  {
    && Known(files, modules) && InFlight(files, modules, loading, chain) && Queued(modules, queue)
    && Ordered(files, modules, loading, queue, seen) && NotLoading(loading, queue) && Once(modules, loads)
  }

  /** No entry of the module table is ever dropped or replaced. */
  ghost predicate Extends(before: map<string, Module>, after: map<string, Module>) {
    forall k :: k in before ==> k in after && after[k] == before[k]
  }

  ghost predicate Grown(
    modules: map<string, Module>, queue: seq<Module>, log: seq<Symbol>, loads: seq<Module>,
    modules': map<string, Module>, queue': seq<Module>, log': seq<Symbol>, loads': seq<Module>)
  {
    Extends(modules, modules') && queue <= queue' && log <= log' && loads <= loads'
  }

  function Registered(modules: map<string, Module>, soname: Soname, m: Module): map<string, Module> {
    var named := modules[m.name := m];
    if soname.Soname? && soname.name != "" && soname.name !in named then named[soname.name := m] else named
  }

  lemma RegisteredKeeps(files: Files, modules: map<string, Module>, path: string, m: Module)
    requires Known(files, modules) && Loads(files, path)
    requires m.path == path && m.name == Basename(path) && m.name !in modules
    ensures Extends(modules, Registered(modules, files[path].soname, m))
    ensures Known(files, Registered(modules, files[path].soname, m))
    ensures m.name in Registered(modules, files[path].soname, m)
    ensures Registered(modules, files[path].soname, m)[m.name] == m
    ensures forall k :: k in Registered(modules, files[path].soname, m) ==>
              k in modules || Registered(modules, files[path].soname, m)[k] == m
  {
  }

  /**
   * What loading the file `elf` as `name` leaves behind, besides the module itself: its soname is a key, its own if it
   * was nobody's; its exports are registered first; its loadable dependencies are in the table; every import is
   * answered or deferred.
   */
  ghost predicate Absorbed(files: Files, elf: Elf, name: string, scanOnly: bool, was: map<string, Module>,
                           wasLog: seq<Symbol>, modules: map<string, Module>, log: seq<Symbol>,
                           deferred: seq<Deferred>, answered: set<string>)
  {
    && (elf.soname.Soname? && elf.soname.name != "" ==>
          && elf.soname.name in modules && name in modules
          && (elf.soname.name !in was ==> modules[elf.soname.name] == modules[name]))
    && (if scanOnly then wasLog <= log else wasLog + elf.exported <= log)
    && (forall d :: d in elf.needed && Loads(files, d) ==> Basename(d) in modules)
    && (forall s :: s in elf.imports ==> s in answered || Deferred(name, s) in deferred)
  }

  lemma IsAbsorbed(files: Files, elf: Elf, name: string, scanOnly: bool, was: map<string, Module>, wasLog: seq<Symbol>,
                   first: map<string, Module>, log1: seq<Symbol>, modules: map<string, Module>, log: seq<Symbol>,
                   deferred: seq<Deferred>, answered: set<string>)
    requires Extends(first, modules) && log1 <= log && log1 == wasLog + (if scanOnly then [] else elf.exported)
    requires name in first
    requires elf.soname.Soname? && elf.soname.name != "" ==>
               elf.soname.name in first && (elf.soname.name !in was ==> first[elf.soname.name] == first[name])
    requires forall d :: d in elf.needed && Loads(files, d) ==> Basename(d) in modules
    requires forall s :: s in elf.imports ==> s in answered || Deferred(name, s) in deferred
    ensures Absorbed(files, elf, name, scanOnly, was, wasLog, modules, log, deferred, answered)
  {
    hide Loads, Basename;
  }

  /** Dropping what has been answered leaves every unanswered import deferred. */
  lemma StaysAbsorbed(files: Files, elf: Elf, name: string, scanOnly: bool, was: map<string, Module>,
                      wasLog: seq<Symbol>, modules: map<string, Module>, log: seq<Symbol>,
                      deferred: seq<Deferred>, answered: set<string>)
    requires Absorbed(files, elf, name, scanOnly, was, wasLog, modules, log, deferred, answered)
    ensures Absorbed(files, elf, name, scanOnly, was, wasLog, modules, log, StillMissing(deferred, answered), answered)
  {
    MissingUnanswered(deferred, answered);
    hide Loads, Basename;
  }

  lemma SonameIsKey(modules: map<string, Module>, soname: Soname, m: Module)
    ensures var after := Registered(modules, soname, m);
      soname.Soname? && soname.name != "" ==>
        soname.name in after && (soname.name !in modules ==> after[soname.name] == m)
  {
  }

  /** Each import is among the deferred relocations exactly when nothing answers it, in the order of the imports. */
  lemma {:induction false} MissingAre(imports: seq<string>, answered: set<string>, name: string)
    ensures forall d :: d in Missing(imports, answered, name) <==>
              d.m == name && d.symbol in imports && d.symbol !in answered
    decreases |imports|
  {
    if imports != [] {
      MissingAre(imports[1..], answered, name);
      assert forall s :: s in imports <==> s == imports[0] || s in imports[1..];
    }
  }

  /** The relocations of a list deferred after those of another are those of the two lists together. */
  lemma {:induction false} MissingConcat(a: seq<string>, b: seq<string>, answered: set<string>, name: string)
    ensures Missing(a + b, answered, name) == Missing(a, answered, name) + Missing(b, answered, name)
    decreases |a|
  {
    if a == [] {
      assert a + b == b;
    } else {
      assert (a + b)[1..] == a[1..] + b;
      MissingConcat(a[1..], b, answered, name);
    }
  }

  /** What is left of two lists of deferred relocations together is what is left of each, in order. */
  lemma {:induction false} StillMissingConcat(a: seq<Deferred>, b: seq<Deferred>, answered: set<string>)
    ensures StillMissing(a + b, answered) == StillMissing(a, answered) + StillMissing(b, answered)
    decreases |a|
  {
    if a == [] {
      assert a + b == b;
    } else {
      assert (a + b)[1..] == a[1..] + b;
      StillMissingConcat(a[1..], b, answered);
    }
  }

  /** The imports that no definition answers yet, in relocation order. */
  function Missing(imports: seq<string>, answered: set<string>, name: string): seq<Deferred>
    decreases |imports|
  {
    if imports == [] then []
    else if imports[0] in answered then Missing(imports[1..], answered, name)
    else [Deferred(name, imports[0])] + Missing(imports[1..], answered, name)
  }

  /** The deferred relocations whose symbol has no definition, in order. */
  function StillMissing(ds: seq<Deferred>, answered: set<string>): seq<Deferred>
    decreases |ds|
  {
    if ds == [] then []
    else if ds[0].symbol in answered then StillMissing(ds[1..], answered)
    else [ds[0]] + StillMissing(ds[1..], answered)
  }

  lemma {:induction false} MissingUnanswered(ds: seq<Deferred>, answered: set<string>)
    ensures forall d :: d in StillMissing(ds, answered) <==> d in ds && d.symbol !in answered
    decreases |ds|
  {
    if ds != [] {
      MissingUnanswered(ds[1..], answered);
      assert forall d :: d in ds <==> d == ds[0] || d in ds[1..];
    }
  }

  function Names(files: Files): (r: set<string>)
    ensures forall p :: p in files ==> Basename(p) in r
  {
    set p | p in files :: Basename(p)
  }

  lemma EnterFlight(files: Files, modules: map<string, Module>, loading: set<string>, chain: seq<string>,
                    modules': map<string, Module>, path: string)
    requires InFlight(files, modules, loading, chain) && Extends(modules, modules')
    requires path in files && (chain != [] ==> Needs(files, chain[|chain| - 1], path))
    requires Basename(path) in modules' && modules'[Basename(path)].path == path
    ensures InFlight(files, modules', loading + {Basename(path)}, chain + [path])
  {
    hide Needs, Basename, Extends;
    var longer := chain + [path];
    KeysGrow(modules, modules');
    assert Chained(files, longer);
    forall n | n in loading + {Basename(path)}
      ensures exists i :: 0 <= i < |longer| && n == Basename(longer[i])
    {
      if n in loading {
        var i :| 0 <= i < |chain| && n == Basename(chain[i]);
        assert longer[i] == chain[i];
      } else {
        assert n == Basename(longer[|chain|]);
      }
    }
  }

  /** Registering a module, or starting to load a name not yet registered, settles nothing anew. */
  lemma OrderGrows(files: Files, modules: map<string, Module>, loading: set<string>, queue: seq<Module>,
                   seen: seq<set<string>>, modules': map<string, Module>, name: string)
    requires Ordered(files, modules, loading, queue, seen) && Known(files, modules)
    requires Extends(modules, modules') && name !in modules
    ensures Ordered(files, modules', loading + {name}, queue, seen)
  {
    hide Reaches, Resolved;
    forall i: nat, d | i < |queue| && d in seen[i]
      ensures Settled(files, modules', loading + {name}, queue, i, d)
    {
      assert Settled(files, modules, loading, queue, i, d);
    }
  }

  lemma OrderShrinks(files: Files, modules: map<string, Module>, loading: set<string>, queue: seq<Module>,
                     seen: seq<set<string>>, name: string)
    requires Ordered(files, modules, loading, queue, seen)
    ensures Ordered(files, modules, loading - {name}, queue, seen)
  {
    hide Reaches, Resolved;
    forall i: nat, d | i < |queue| && d in seen[i]
      ensures Settled(files, modules, loading - {name}, queue, i, d)
    {
      assert Settled(files, modules, loading, queue, i, d);
    }
  }

  /** A dependency still being loaded is on the chain, so it reaches the file at the end of the chain. */
  lemma LoadingReaches(files: Files, modules: map<string, Module>, loading: set<string>, chain: seq<string>, m: Module)
    requires InFlight(files, modules, loading, chain) && chain != []
    requires m.name in loading && m.name in modules && modules[m.name] == m
    ensures Reaches(files, m.path, chain[|chain| - 1])
  {
    var i :| 0 <= i < |chain| && m.name == Basename(chain[i]);
    ChainReaches(files, chain, i);
  }

  /** Queueing the innermost module once its dependencies have been loaded keeps the order. */
  lemma QueueingKeepsOrder(files: Files, modules: map<string, Module>, loading: set<string>, chain: seq<string>,
                           queue: seq<Module>, seen: seq<set<string>>, m: Module, found: set<string>)
    requires Known(files, modules) && InFlight(files, modules, loading, chain)
    requires Ordered(files, modules, loading, queue, seen)
    requires chain != [] && chain[|chain| - 1] == m.path && Resolved(files, m.path, found)
    requires m.name in loading && m.name in modules && modules[m.name] == m
    requires forall d :: d in found ==> Basename(d) in modules
    ensures Ordered(files, modules, loading, queue + [m], seen + [found])
  {
    hide Reaches, Resolved, InFlight;
    var longer, all := queue + [m], seen + [found];
    forall i: nat, d | i < |longer| && d in all[i]
      ensures Settled(files, modules, loading, longer, i, d)
    {
      if i < |queue| {
        assert Settled(files, modules, loading, queue, i, d);
      } else {
        if modules[Basename(d)].name in loading {
          LoadingReaches(files, modules, loading, chain, modules[Basename(d)]);
        }
      }
    }
  }

  lemma RegisteredStep(files: Files, modules: map<string, Module>, loading: set<string>, chain: seq<string>,
                       queue: seq<Module>, seen: seq<set<string>>, loads: seq<Module>, path: string, m: Module)
    requires Kept(files, modules, loading, chain, queue, seen, loads)
    requires Loads(files, path) && m == Module(Basename(path), path, files[path].base) && m.name !in modules
    requires chain != [] ==> Needs(files, chain[|chain| - 1], path)
    ensures var modules' := Registered(modules, files[path].soname, m);
      && Extends(modules, modules') && m.name in modules' && modules'[m.name] == m
      && Kept(files, modules', loading + {m.name}, chain + [path], queue, seen, loads + [m])
    ensures forall i :: 0 <= i < |chain| ==> Basename(chain[i]) != m.name
  {
    hide Ordered, Registered, Needs;
    var modules' := Registered(modules, files[path].soname, m);
    RegisteredKeeps(files, modules, path, m);
    NotInFlight(files, modules, loading, chain, m.name);
    hide InFlight;
    EnterFlight(files, modules, loading, chain, modules', path);
    OrderGrows(files, modules, loading, queue, seen, modules', m.name);
    QueueGrows(modules, modules', queue);
    OnceGrows(modules, modules', loads, m);
  }

  lemma QueueGrows(modules: map<string, Module>, modules': map<string, Module>, queue: seq<Module>)
    requires Queued(modules, queue) && Extends(modules, modules')
    ensures Queued(modules', queue)
  {
  }

  lemma OnceGrows(modules: map<string, Module>, modules': map<string, Module>, loads: seq<Module>, m: Module)
    requires Once(modules, loads) && Extends(modules, modules')
    requires m.name !in modules && m.name in modules' && modules'[m.name] == m
    requires forall k :: k in modules' ==> k in modules || modules'[k] == m
    ensures Once(modules', loads + [m])
  {
    forall k | k in modules'
      ensures modules'[k] in loads + [m]
    {
      assert k in modules ==> modules[k] in loads;
      assert (loads + [m])[|loads|] == m;
    }
  }

  lemma NeedsFirst(files: Files, path: string, dep: string)
    requires path in files && dep in files[path].needed
    ensures dep in files ==> Needs(files, path, dep)
  {
    if dep in files {
      assert Answers(files, dep, Basename(dep));
    }
  }

  /** Registering leaves fewer names to load: the measure that bounds the recursion. */
  lemma FewerLeft(files: Files, path: string, modules: map<string, Module>, modules': map<string, Module>)
    requires path in files && Basename(path) !in modules && Basename(path) in modules' && Extends(modules, modules')
    ensures Names(files) - modules'.Keys < Names(files) - modules.Keys
  {
    assert Basename(path) in Names(files) - modules.Keys;
  }

  lemma ExtendsSelf(modules: map<string, Module>)
    ensures Extends(modules, modules)
  {
  }

  /** What the dependencies added comes on top of what the registration added. */
  lemma GrownFrom(modules: map<string, Module>, log: seq<Symbol>, loads: seq<Module>, first: map<string, Module>,
                  log1: seq<Symbol>, loads1: seq<Module>, queue: seq<Module>,
                  modules': map<string, Module>, queue': seq<Module>, log': seq<Symbol>, loads': seq<Module>, m: Module)
    requires Extends(modules, first) && log <= log1 && loads <= loads1
    requires Grown(first, queue, log1, loads1, modules', queue', log', loads')
    requires m.name in first && first[m.name] == m
    ensures Grown(modules, queue, log, loads, modules', queue', log', loads')
    ensures Grown(modules, queue, log, loads, modules', queue' + [m], log', loads')
    ensures m.name in modules' && modules'[m.name] == m
  {
  }

  lemma NotInFlight(files: Files, modules: map<string, Module>, loading: set<string>, chain: seq<string>, name: string)
    requires InFlight(files, modules, loading, chain) && name !in modules
    ensures forall i :: 0 <= i < |chain| ==> Basename(chain[i]) != name
  {
  }

  lemma KeysGrow(modules: map<string, Module>, modules': map<string, Module>)
    requires Extends(modules, modules')
    ensures modules.Keys <= modules'.Keys
    ensures forall k :: k in modules ==> modules'[k] == modules[k]
  {
  }

  /** The state a load leaves behind when its own module is not queued. */
  lemma UnqueuedStep(files: Files, modules: map<string, Module>, loading: set<string>, queue: seq<Module>,
                     seen: seq<set<string>>, loads: seq<Module>, chain: seq<string>, path: string, m: Module)
    requires Kept(files, modules, loading, chain + [path], queue, seen, loads)
    requires m.name in loading && m.name == Basename(path)
    requires forall i :: 0 <= i < |chain| ==> Basename(chain[i]) != m.name
    ensures Kept(files, modules, loading - {m.name}, chain, queue, seen, loads) && m !in queue
  {
    hide Known, InFlight, Queued, Ordered, Once;
    OrderShrinks(files, modules, loading, queue, seen, m.name);
    LeaveFlight(files, modules, loading, chain, path);
  }

  lemma LeaveFlight(files: Files, modules: map<string, Module>, loading: set<string>, chain: seq<string>, path: string)
    requires InFlight(files, modules, loading, chain + [path])
    requires forall i :: 0 <= i < |chain| ==> Basename(chain[i]) != Basename(path)
    ensures InFlight(files, modules, loading - {Basename(path)}, chain)
  {
    var longer := chain + [path];
    assert forall i :: 0 <= i < |chain| ==> longer[i] == chain[i];
    forall n | n in loading - {Basename(path)}
      ensures exists i :: 0 <= i < |chain| && n == Basename(chain[i])
    {
      var i :| 0 <= i < |longer| && n == Basename(longer[i]);
      assert i < |chain| && n == Basename(chain[i]);
    }
  }

  /** The state a load leaves behind when its own module is queued. */
  lemma QueueStep(files: Files, modules: map<string, Module>, loading: set<string>, queue: seq<Module>,
                  seen: seq<set<string>>, loads: seq<Module>, chain: seq<string>, path: string, m: Module)
    returns (found: set<string>)
    requires Kept(files, modules, loading, chain + [path], queue, seen, loads) && m !in queue
    requires m.name in loading && m.name == Basename(path)
    requires forall i :: 0 <= i < |chain| ==> Basename(chain[i]) != m.name
    requires path in files && m.path == path && m.name in modules && modules[m.name] == m
    requires forall d :: d in files[path].needed && Loads(files, d) ==> Basename(d) in modules
    ensures forall d :: d in found <==> d in files[path].needed && Basename(d) in modules
    ensures Kept(files, modules, loading - {m.name}, chain, queue + [m], seen + [found], loads) && m in queue + [m]
  {
    hide Known, InFlight, Ordered, Once;
    found := set d | d in files[path].needed && Basename(d) in modules;
    QueueingKeepsOrder(files, modules, loading, chain + [path], queue, seen, m, found);
    OrderShrinks(files, modules, loading, queue + [m], seen + [found], m.name);
    LeaveFlight(files, modules, loading, chain, path);
    assert (queue + [m])[|queue|] == m;
  }

  /** A queue entry behind which a dependency it had found was queued lies with it on a cycle. */
  lemma OutOfOrderOnlyOnCycles(files: Files, modules: map<string, Module>, loading: set<string>, chain: seq<string>,
                               queue: seq<Module>, seen: seq<set<string>>, loads: seq<Module>,
                               i: nat, j: nat, d: string)
    requires Kept(files, modules, loading, chain, queue, seen, loads)
    requires i <= j < |queue| && d in seen[i] && Basename(d) in modules && queue[j] == modules[Basename(d)]
    ensures Needs(files, queue[i].path, queue[j].path) && Reaches(files, queue[j].path, queue[i].path)
  {
    hide Reaches, InFlight, Once;
    assert Settled(files, modules, loading, queue, i, d);
    assert Answers(files, queue[j].path, Basename(d));
  }

  /** On an acyclic graph a queued module comes after each queued module that answered one of its dependencies. */
  lemma QueueFollowsResolved(files: Files, rank: map<string, nat>, modules: map<string, Module>,
                             loading: set<string>, chain: seq<string>, queue: seq<Module>,
                             seen: seq<set<string>>, loads: seq<Module>, i: nat, j: nat, d: string)
    requires Kept(files, modules, loading, chain, queue, seen, loads) && Acyclic(files, rank)
    requires i < |queue| && j < |queue|
    requires d in seen[i] && Basename(d) in modules && queue[j] == modules[Basename(d)]
    ensures j < i
  {
    hide Needs, Known, InFlight, Ordered, Once, Queued, NotLoading;
    if i <= j {
      OutOfOrderOnlyOnCycles(files, modules, loading, chain, queue, seen, loads, i, j, d);
      var route :| Route(files, route, queue[j].path, queue[i].path);
      RouteRank(files, rank, route);
      assert false;
    }
  }

  /** On an acyclic graph each loadable dependency of a queued module is registered, and ahead of it if queued. */
  lemma QueueFollowsDependencies(files: Files, rank: map<string, nat>, modules: map<string, Module>,
                                 loading: set<string>, chain: seq<string>, queue: seq<Module>,
                                 seen: seq<set<string>>, loads: seq<Module>, i: nat, d: string)
    requires Kept(files, modules, loading, chain, queue, seen, loads) && Acyclic(files, rank)
    requires i < |queue| && queue[i].path in files && d in files[queue[i].path].needed && Loads(files, d)
    ensures Basename(d) in modules
    ensures forall j :: 0 <= j < |queue| && queue[j] == modules[Basename(d)] ==> j < i
  {
    assert Ordered(files, modules, loading, queue, seen) && Resolved(files, queue[i].path, seen[i]);
    assert Settled(files, modules, loading, queue, i, d);
    hide Kept, Acyclic, Basename;
    forall j | 0 <= j < |queue| && queue[j] == modules[Basename(d)]
      ensures j < i
    {
      QueueFollowsResolved(files, rank, modules, loading, chain, queue, seen, loads, i, j, d);
    }
  }

  class ElfLoader {
    const files: Files
    var modules: map<string, Module>
    var loading: set<string>
    var exports: map<string, int>
    var weak: map<string, bool>
    var provided: set<string>
    var pendingInit: seq<Module>
    var deferred: seq<Deferred>
    ghost var log: seq<Symbol>
    ghost var loads: seq<Module>
    /** For each queue entry, the dependencies that were in the module table when it was queued. */
    ghost var resolved: seq<set<string>>

    ghost predicate Valid(chain: seq<string>)
      reads this
    {
      Kept(files, modules, loading, chain, pendingInit, resolved, loads) && Table(log, exports, weak)
    }

    constructor (files: Files, provided: set<string>)
      ensures Valid([]) && this.files == files && this.provided == provided
      ensures loading == {} && modules == map[] && pendingInit == [] && log == [] && deferred == []
    {
      this.files, this.provided := files, provided;
      modules, loading, exports, weak := map[], {}, map[], map[];
      pendingInit, deferred, log, loads, resolved := [], [], [], [], [];
    }

    predicate Resolvable(name: string)
      reads this
    {
      name in exports || name in provided
    }

    method RegisterExports(elf: Elf, expose: bool)
      requires Table(log, exports, weak)
      modifies this`exports, this`weak, this`log
      ensures Table(log, exports, weak)
      ensures log == old(log) + if expose then elf.exported else []
    {
      hide Table;
      for i := 0 to |elf.exported|
        invariant Table(log, exports, weak)
        invariant log == old(log) + if expose then elf.exported[..i] else []
      {
        var s := elf.exported[i];
        if expose {
          TableGrows(log, exports, weak, s);
          assert s.name in weak <==> s.name in exports by { TableKeys(log, exports, weak); }
          if s.name !in exports || (weak[s.name] && !s.weak) {
            exports := exports[s.name := s.addr];
            weak := weak[s.name := s.weak];
          }
          log := log + [s];
        }
      }
      assert elf.exported[..|elf.exported|] == elf.exported;
    }

    method ApplyRelocations(elf: Elf, m: Module)
      modifies this`deferred
      ensures deferred == old(deferred) + Missing(elf.imports, exports.Keys + provided, m.name)
      ensures forall s :: s in elf.imports && !Resolvable(s) ==> Deferred(m.name, s) in deferred
    {
      MissingAre(elf.imports, exports.Keys + provided, m.name);
      for i := 0 to |elf.imports|
        invariant deferred + Missing(elf.imports[i..], exports.Keys + provided, m.name)
                  == old(deferred) + Missing(elf.imports, exports.Keys + provided, m.name)
      {
        var symbol := elf.imports[i];
        ghost var rest := Missing(elf.imports[i + 1..], exports.Keys + provided, m.name);
        assert elf.imports[i..][1..] == elf.imports[i + 1..];
        if !Resolvable(symbol) {
          assert deferred + ([Deferred(m.name, symbol)] + rest) == (deferred + [Deferred(m.name, symbol)]) + rest;
          deferred := deferred + [Deferred(m.name, symbol)];
        }
      }
    }

    /** What is answered goes; what is not stays, in order. */
    method ResolvePendingSymbols()
      modifies this`deferred
      ensures deferred == StillMissing(old(deferred), exports.Keys + provided)
      ensures forall d :: d in deferred ==> !Resolvable(d.symbol)
    {
      var missing: seq<Deferred> := [];
      ghost var answered := exports.Keys + provided;
      for i := 0 to |deferred|
        invariant deferred == old(deferred)
        invariant StillMissing(deferred, answered) == missing + StillMissing(deferred[i..], answered)
      {
        assert deferred[i..][1..] == deferred[i + 1..];
        if !Resolvable(deferred[i].symbol) {
          assert missing + ([deferred[i]] + StillMissing(deferred[i + 1..], answered))
              == (missing + [deferred[i]]) + StillMissing(deferred[i + 1..], answered);
          missing := missing + [deferred[i]];
        }
      }
      MissingUnanswered(deferred, answered);
      assert missing + [] == missing;
      deferred := missing;
    }

    /** A dependency that cannot be loaded is passed over. */
    method LoadNeeded(needed: seq<string>, ghost path: string, ghost chain: seq<string>)
      requires Valid(chain) && loading != {}
      requires path in files && needed == files[path].needed && chain != [] && chain[|chain| - 1] == path
      modifies this
      ensures Valid(chain) && loading == old(loading) && provided == old(provided)
      ensures Grown(old(modules), old(pendingInit), old(log), old(loads), modules, pendingInit, log, loads)
      ensures old(deferred) <= deferred
      ensures forall d :: d in needed && Loads(files, d) ==> Basename(d) in modules
      decreases Names(files) - modules.Keys, 3
    {
      hide Kept, Table, Needs, Loads;
      for i := 0 to |needed|
        invariant Valid(chain) && loading == old(loading) && provided == old(provided)
        invariant Grown(old(modules), old(pendingInit), old(log), old(loads), modules, pendingInit, log, loads)
        invariant old(deferred) <= deferred
        invariant forall d :: d in needed[..i] && Loads(files, d) ==> Basename(d) in modules
      {
        NeedsFirst(files, path, needed[i]);
        var _ := Load(needed[i], true, false, chain);
        assert needed[..i + 1] == needed[..i] + [needed[i]];
      }
      assert needed[..|needed|] == needed;
    }

    method LoadFile(path: string, name: string, isDependency: bool, scanOnly: bool, ghost chain: seq<string>)
      returns (r: Result)
      requires name == Basename(path) && name !in modules && name in loading
      requires Kept(files, modules, loading - {name}, chain, pendingInit, resolved, loads) && Table(log, exports, weak)
      requires path in files && chain != [] ==> Needs(files, chain[|chain| - 1], path)
      modifies this
      ensures Kept(files, modules, loading - {name}, chain, pendingInit, resolved, loads) && Table(log, exports, weak)
      ensures loading == old(loading) && provided == old(provided)
      ensures Grown(old(modules), old(pendingInit), old(log), old(loads), modules, pendingInit, log, loads)
      ensures old(deferred) <= deferred
      ensures !Loads(files, path) ==>
                && r.Failed? && modules == old(modules) && pendingInit == old(pendingInit)
                && log == old(log) && loads == old(loads)
      ensures Loads(files, path) ==> name in modules && modules[name] == Module(name, path, files[path].base)
      ensures Loads(files, path) && files[path].relocates ==> r == Loaded(modules[name])
      ensures Loads(files, path) && !files[path].relocates ==> r == Failed(UnhandledRelocation)
      ensures path !in files ==> r == Failed(FileNotFound)
      ensures path in files && !Loads(files, path) ==> r == Failed(Unusable)
      ensures Loads(files, path) ==>
                (modules[name] in pendingInit <==>
                   files[path].relocates && !scanOnly && (!isDependency || files[path].appShipped))
      ensures Loads(files, path) ==>
                Absorbed(files, files[path], name, scanOnly, old(modules), old(log), modules, log, deferred,
                         exports.Keys + provided)
      decreases Names(files) - modules.Keys, 1
    {
      hide Kept, Table, Needs, Basename, Extends, Names, Absorbed;
      ExtendsSelf(modules);
      if path !in files {
        return Failed(FileNotFound);
      }
      var elf := files[path];
      if !elf.parses || !elf.placed {
        return Failed(Unusable);
      }
      r := Admit(path, name, elf, isDependency, scanOnly, chain);
    }

    /** The part of a load that registers the module, its dependencies and its relocations. */
    method Admit(path: string, name: string, elf: Elf, isDependency: bool, scanOnly: bool, ghost chain: seq<string>)
      returns (r: Result)
      requires name == Basename(path) && name !in modules && name in loading
      requires path in files && Loads(files, path) && elf == files[path]
      requires Kept(files, modules, loading - {name}, chain, pendingInit, resolved, loads) && Table(log, exports, weak)
      requires chain != [] ==> Needs(files, chain[|chain| - 1], path)
      modifies this
      ensures Kept(files, modules, loading - {name}, chain, pendingInit, resolved, loads) && Table(log, exports, weak)
      ensures loading == old(loading) && provided == old(provided)
      ensures Grown(old(modules), old(pendingInit), old(log), old(loads), modules, pendingInit, log, loads)
      ensures old(deferred) <= deferred
      ensures name in modules && modules[name] == Module(name, path, elf.base)
      ensures r == if elf.relocates then Loaded(modules[name]) else Failed(UnhandledRelocation)
      ensures modules[name] in pendingInit <==> elf.relocates && !scanOnly && (!isDependency || elf.appShipped)
      ensures Absorbed(files, elf, name, scanOnly, old(modules), old(log), modules, log, deferred,
                       exports.Keys + provided)
      decreases Names(files) - modules.Keys, 0
    {
      hide Kept, Table, Registered, Needs, Basename, Missing, Extends, Names, Loads, Winner, Entry, Absorbed;
      var m := Module(name, path, elf.base);
      RegisterModule(path, elf, scanOnly, m, chain);
      ghost var first, log1, loads1 := modules, log, loads;
      hide Grown;
      LoadNeeded(elf.needed, path, chain + [path]);
      GrownFrom(old(modules), old(log), old(loads), first, log1, loads1, old(pendingInit),
                modules, pendingInit, log, loads, m);
      UnqueuedStep(files, modules, loading, pendingInit, resolved, loads, chain, path, m);
      r := FinishLoad(path, elf, isDependency, scanOnly, m, chain);
      IsAbsorbed(files, elf, name, scanOnly, old(modules), old(log), first, log1, modules, log, deferred,
                 exports.Keys + provided);
    }

    /** The start of a load: the module under its name and soname, then its exports. */
    method RegisterModule(path: string, elf: Elf, scanOnly: bool, m: Module, ghost chain: seq<string>)
      requires path in files && Loads(files, path) && elf == files[path] && m == Module(Basename(path), path, elf.base)
      requires m.name !in modules && m.name in loading
      requires Kept(files, modules, loading - {m.name}, chain, pendingInit, resolved, loads)
      requires Table(log, exports, weak) && (chain != [] ==> Needs(files, chain[|chain| - 1], path))
      modifies this`modules, this`loads, this`exports, this`weak, this`log
      ensures Kept(files, modules, loading, chain + [path], pendingInit, resolved, loads) && Table(log, exports, weak)
      ensures Extends(old(modules), modules) && m.name in modules && modules[m.name] == m
      ensures elf.soname.Soname? && elf.soname.name != "" ==>
                elf.soname.name in modules && (elf.soname.name !in old(modules) ==> modules[elf.soname.name] == m)
      ensures loads == old(loads) + [m] && log == old(log) + (if scanOnly then [] else elf.exported)
      ensures Names(files) - modules.Keys < Names(files) - old(modules).Keys
      ensures forall i :: 0 <= i < |chain| ==> Basename(chain[i]) != m.name
    {
      hide Kept, Table, Registered, Needs, Basename, Extends, Names, Loads, Winner, Entry;
      RegisteredStep(files, modules, loading - {m.name}, chain, pendingInit, resolved, loads, path, m);
      FewerLeft(files, path, modules, Registered(modules, elf.soname, m));
      SonameIsKey(modules, elf.soname, m);
      assert loading - {m.name} + {m.name} == loading;
      modules := Registered(modules, elf.soname, m);
      loads := loads + [m];
      RegisterExports(elf, !scanOnly);
    }

    /** The end of a load: the relocations, then the queue. */
    method FinishLoad(path: string, elf: Elf, isDependency: bool, scanOnly: bool, m: Module, ghost chain: seq<string>)
      returns (r: Result)
      requires path in files && elf == files[path] && m == Module(Basename(path), path, elf.base)
      requires m.name in loading && m.name in modules && modules[m.name] == m && m !in pendingInit
      requires Kept(files, modules, loading, chain + [path], pendingInit, resolved, loads)
      requires Kept(files, modules, loading - {m.name}, chain, pendingInit, resolved, loads)
      requires forall i :: 0 <= i < |chain| ==> Basename(chain[i]) != m.name
      requires forall d :: d in elf.needed && Loads(files, d) ==> Basename(d) in modules
      modifies this`deferred, this`pendingInit, this`resolved
      ensures Kept(files, modules, loading - {m.name}, chain, pendingInit, resolved, loads)
      ensures deferred == old(deferred) + Missing(elf.imports, exports.Keys + provided, m.name)
      ensures forall s :: s in elf.imports && !Resolvable(s) ==> Deferred(m.name, s) in deferred
      ensures r == if elf.relocates then Loaded(m) else Failed(UnhandledRelocation)
      ensures pendingInit ==
        old(pendingInit) + (if elf.relocates && !scanOnly && (!isDependency || elf.appShipped) then [m] else [])
    {
      hide Kept, Basename, Missing, Loads;
      ApplyRelocations(elf, m);
      if !elf.relocates {
        return Failed(UnhandledRelocation);
      }
      if !scanOnly && (!isDependency || elf.appShipped) {
        ghost var found := QueueStep(files, modules, loading, pendingInit, resolved, loads, chain, path, m);
        pendingInit := pendingInit + [m];
        resolved := resolved + [found];
      }
      return Loaded(m);
    }

    /** `chain` lists the files whose loads are under way, outermost first. */
    method Load(path: string, isDependency: bool, scanOnly: bool, ghost chain: seq<string>) returns (r: Result)
      requires Valid(chain)
      requires path in files && chain != [] ==> Needs(files, chain[|chain| - 1], path)
      modifies this
      ensures Valid(chain) && loading == old(loading) && provided == old(provided)
      ensures Grown(old(modules), old(pendingInit), old(log), old(loads), modules, pendingInit, log, loads)
      ensures r != Failed(CircularDependency)
      ensures Basename(path) in old(modules) ==>
                r == Loaded(old(modules)[Basename(path)]) && modules == old(modules) && pendingInit == old(pendingInit)
                && log == old(log) && loads == old(loads) && deferred == old(deferred)
      ensures Basename(path) !in old(modules) ==>
                && (path !in files ==> r == Failed(FileNotFound))
                && (path in files && !Loads(files, path) ==> r == Failed(Unusable))
                && (!Loads(files, path) ==>
                      && modules == old(modules) && pendingInit == old(pendingInit)
                      && log == old(log) && loads == old(loads))
                && (Loads(files, path) ==>
                      && Basename(path) in modules
                      && modules[Basename(path)] == Module(Basename(path), path, files[path].base)
                      && r == (if files[path].relocates then Loaded(modules[Basename(path)])
                               else Failed(UnhandledRelocation))
                      && (modules[Basename(path)] in pendingInit <==>
                            files[path].relocates && !scanOnly && (!isDependency || files[path].appShipped))
                      && Absorbed(files, files[path], Basename(path), scanOnly, old(modules), old(log), modules, log,
                                  deferred, exports.Keys + provided))
      ensures r.Failed? || loading != {} ==> old(deferred) <= deferred
      ensures r.Loaded? && loading == {} && Basename(path) !in old(modules) ==>
                forall d :: d in deferred ==> !Resolvable(d.symbol)
      decreases Names(files) - modules.Keys, 2
    {
      var name := Basename(path);
      if name in modules {
        return Loaded(modules[name]);
      }
      if name in loading {
        return Failed(CircularDependency);
      }
      loading := loading + {name};
      hide Absorbed, Basename;
      r := LoadFile(path, name, isDependency, scanOnly, chain);
      loading := loading - {name};
      if r.Loaded? && loading == {} {
        StaysAbsorbed(files, files[path], name, scanOnly, old(modules), old(log), modules, log, deferred,
                      exports.Keys + provided);
        ResolvePendingSymbols();
      }
    }
  }

  /** A name known from any directory is answered from the table, and asking for it changes nothing. */
  method LoadKnown(loader: ElfLoader, directory: string, name: string) returns (r: Result)
    requires loader.Valid([]) && IsName(name) && Basename(directory + "/" + name) in loader.modules
    modifies loader
    ensures loader.Valid([]) && r == Loaded(old(loader.modules)[Basename(directory + "/" + name)])
    ensures loader.modules == old(loader.modules) && loader.pendingInit == old(loader.pendingInit)
    ensures loader.log == old(loader.log) && loader.loads == old(loader.loads)
    ensures loader.deferred == old(loader.deferred)
  {
    BasenameIn(directory, name);
    r := loader.Load(name, false, false, []);
  }

  /** After a file in a directory has been loaded, loading its bare name answers that same module. */
  method LoadByName(loader: ElfLoader, directory: string, name: string, isDependency: bool, scanOnly: bool)
    returns (first: Result, second: Result)
    requires loader.Valid([]) && IsName(name)
    modifies loader
    ensures loader.Valid([]) && (first.Loaded? ==> second == first)
    ensures first.Loaded? && name !in old(loader.modules) ==>
              first.m.name == name && first.m.path == directory + "/" + name
  {
    BasenameIn(directory, name);
    first := loader.Load(directory + "/" + name, isDependency, scanOnly, []);
    if first.Loaded? {
      second := LoadKnown(loader, directory, name);
    } else {
      second := first;
    }
  }
}
