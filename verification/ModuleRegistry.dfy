// Loading and unloading modules: nested requests while a module initialises, failed initialisation,
// and recursive unloading of dependents (libathemecore/module.c:64-222, 313-407, 475-500).
module ModuleRegistry {
  import opened Basics
  import opened LinkedLists
  import opened ModuleGraph

  // What a module's init code asks for (include/module.h:113-140).
  datatype Op =
    | Request(name: string)                // module_request(), result ignored
    | TryRequest(name: string)             // MODULE_TRY_REQUEST_DEPENDENCY
    | Locate(name: string, sym: string)    // module_locate_symbol(), result ignored
    | TrySymbol(name: string, sym: string) // MODULE_TRY_REQUEST_SYMBOL
    | Conflict(name: string)               // MODULE_CONFLICT
    | Fail                                 // the init code gives up

  // A module file: whether its header fits this program, its symbols and its init code. It is
  // published under the name it is asked for.
  datatype File = File(compatible: bool, symbols: set<string>, init: seq<Op>)

  ghost predicate Has(names: map<Id, string>, ids: seq<Id>, name: string) {
    exists m <- ids :: m in names && names[m] == name
  }

  // What the init code of m insisted on holds.
  ghost predicate Satisfied(files: map<string, File>, g: Graph, names: map<Id, string>, m: Id, op: Op) {
    match op
    case TryRequest(name) => Has(names, g.loaded, name)
    case TrySymbol(name, sym) =>
      && m in g.dep && Has(names, g.dep[m], name)
      && name in files && sym in files[name].symbols
    case Fail => false
    case _ => true
  }

  // Whether the init code goes on after one of its steps, told by what is loaded then.
  ghost predicate GoesOn(files: map<string, File>, names: map<Id, string>, loaded: seq<Id>, op: Op) {
    match op
    case Request(_) => true
    case TryRequest(name) => Has(names, loaded, name)
    case Locate(_, _) => true
    case TrySymbol(name, sym) => Has(names, loaded, name) && name in files && sym in files[name].symbols
    case Conflict(name) => !Has(names, loaded, name)
    case Fail => false
  }

  // ---- modules that can always be loaded ----

  // A step that cannot stop the init code of a module of rank r: what it insists on ranks lower, and
  // what it conflicts with cannot be loaded.
  ghost predicate Harmless(files: map<string, File>, rank: map<string, nat>, r: nat, op: Op) {
    match op
    case Request(_) => true
    case TryRequest(name) => name in rank && rank[name] < r
    case Locate(_, _) => true
    case TrySymbol(name, sym) => name in rank && rank[name] < r && name in files && sym in files[name].symbols
    case Conflict(name) => name in files ==> !files[name].compatible
    case Fail => false
  }

  // The ranked modules are there, fit, and have no step that can stop them.
  ghost predicate Founded(files: map<string, File>, rank: map<string, nat>) {
    forall name <- rank ::
      name in files && files[name].compatible && forall op <- files[name].init :: Harmless(files, rank, rank[name], op)
  }

  // No ranked module being initialised ranks lower than r.
  ghost predicate Above(names: map<Id, string>, inprogress: seq<Id>, rank: map<string, nat>, r: nat) {
    forall m <- inprogress :: m in names && names[m] in rank ==> rank[names[m]] >= r
  }

  ghost predicate Reachable(files: map<string, File>, names: map<Id, string>, inprogress: seq<Id>, rank: map<string, nat>, name: string) {
    Founded(files, rank) && name in rank && Above(names, inprogress, rank, rank[name] + 1)
  }

  // So far the init code of a module of rank r cannot have been stopped.
  ghost predicate Safe(files: map<string, File>, names: map<Id, string>, inprogress: seq<Id>, rank: map<string, nat>, name: string) {
    Founded(files, rank) && name in rank && Above(names, inprogress, rank, rank[name])
  }

  lemma SafeStep(files: map<string, File>, names: map<Id, string>, inprogress: seq<Id>, rank: map<string, nat>, name: string, op: Op)
    requires Safe(files, names, inprogress, rank, name) && op in files[name].init
    ensures Harmless(files, rank, rank[name], op) && !op.Fail?
    ensures op.TryRequest? || op.TrySymbol? ==> Reachable(files, names, inprogress, rank, op.name)
    ensures op.TrySymbol? ==> op.name in files && op.sym in files[op.name].symbols
    ensures op.Conflict? && op.name in files ==> !files[op.name].compatible
  {
  }

  lemma SafeEntered(files: map<string, File>, names: map<Id, string>, inprogress: seq<Id>, rank: map<string, nat>, m: Id, name: string)
    requires m !in inprogress && forall x <- inprogress :: x in names
    ensures Reachable(files, names, inprogress, rank, name) ==> Safe(files, names[m := name], inprogress + [m], rank, name)
  {
    assert forall x <- inprogress + [m] :: x in inprogress || x == m;
  }

  // ---- what loading changes ----

  // The init code conflicts with nothing that is loaded.
  ghost predicate NoConflict(names: map<Id, string>, loaded: seq<Id>, ops: seq<Op>) {
    forall op <- ops :: op.Conflict? ==> !Has(names, loaded, op.name)
  }

  // Some step of the init code gives up.
  ghost predicate Stopped(files: map<string, File>, names: map<Id, string>, loaded: seq<Id>, ops: seq<Op>) {
    exists op <- ops :: !GoesOn(files, names, loaded, op)
  }

  // What a step whose result is ignored has brought about: a request for a module that could be
  // loaded, that it is; a look at a module that was loaded, that m depends on it.
  ghost predicate Brought(files: map<string, File>, n0: map<Id, string>, loaded0: seq<Id>, inprogress: seq<Id>, rank: map<string, nat>,
                          g: Graph, names: map<Id, string>, m: Id, op: Op)
  {
    match op
    case Request(name) => Reachable(files, n0, inprogress, rank, name) ==> Has(names, g.loaded, name)
    case Locate(name, _) => Has(n0, loaded0, name) ==> m in g.dep && Has(names, g.dep[m], name)
    case _ => true
  }

  ghost predicate AllBrought(files: map<string, File>, n0: map<Id, string>, loaded0: seq<Id>, inprogress: seq<Id>, rank: map<string, nat>,
                             g: Graph, names: map<Id, string>, m: Id, ops: seq<Op>)
  {
    forall op <- ops :: Brought(files, n0, loaded0, inprogress, rank, g, names, m, op)
  }

  lemma NamesLeft(names: map<Id, string>, a: set<Id>, b: set<Id>)
    ensures (names - a) - b == names - (a + b)
  {
  }

  // What loading changes: modules are added, the ones there before keep their names and what they
  // depend on, except that the module being initialised (target) may have come to depend on more.
  ghost predicate Grown(g: Graph, now: Graph, names: map<Id, string>, namesNow: map<Id, string>, target: Option<Id>) {
    && g.loaded <= now.loaded
    && (forall x <- names :: x in namesNow && namesNow[x] == names[x])
    && forall x <- g.dep :: x in now.dep && (now.dep[x] == g.dep[x] || (target == Some(x) && g.dep[x] <= now.dep[x]))
  }

  lemma GrownTwice(g0: Graph, g1: Graph, g2: Graph, n0: map<Id, string>, n1: map<Id, string>, n2: map<Id, string>, target: Option<Id>)
    requires Grown(g0, g1, n0, n1, target) && Grown(g1, g2, n1, n2, target)
    ensures Grown(g0, g2, n0, n2, target)
  {
    assert g0.loaded <= g1.loaded <= g2.loaded;
    forall x <- g0.dep ensures x in g2.dep && (g2.dep[x] == g0.dep[x] || (target == Some(x) && g0.dep[x] <= g2.dep[x])) {
      assert x in g1.dep && g0.dep[x] <= g1.dep[x];
      assert x in g2.dep && g1.dep[x] <= g2.dep[x];
    }
  }

  lemma HasStill(n0: map<Id, string>, n1: map<Id, string>, a: seq<Id>, b: seq<Id>, name: string)
    requires Has(n0, a, name) && a <= b && forall x <- n0 :: x in n1 && n1[x] == n0[x]
    ensures Has(n1, b, name)
  {
    var m :| m in a && m in n0 && n0[m] == name;
    assert m in b;
  }

  lemma SatisfiedStill(files: map<string, File>, g0: Graph, g1: Graph, n0: map<Id, string>, n1: map<Id, string>,
                       target: Option<Id>, m: Id, op: Op)
    requires Grown(g0, g1, n0, n1, target) && Satisfied(files, g0, n0, m, op)
    ensures Satisfied(files, g1, n1, m, op)
  {
    match op
    case TryRequest(name) => HasStill(n0, n1, g0.loaded, g1.loaded, name);
    case TrySymbol(name, sym) => HasStill(n0, n1, g0.dep[m], g1.dep[m], name);
    case _ =>
  }

  lemma GrownNot(g: Graph, n: map<Id, string>, target: Option<Id>)
    ensures Grown(g, g, n, n, target)
  {
  }

  lemma GrownWider(g: Graph, g1: Graph, n: map<Id, string>, n1: map<Id, string>, m: Id)
    requires Grown(g, g1, n, n1, None)
    ensures Grown(g, g1, n, n1, Some(m))
  {
  }

  lemma GrownAlike(g: Graph, g1: Graph, g2: Graph, n: map<Id, string>, n1: map<Id, string>, target: Option<Id>)
    requires Grown(g, g1, n, n1, target) && g1.dep == g2.dep && g1.loaded == g2.loaded
    ensures Grown(g, g2, n, n1, target)
  {
  }

  // What the init code of the new module m changed, and then its coming or its going.
  lemma GrownByOne(g: Graph, m: Id, g1: Graph, n: map<Id, string>, name: string, n1: map<Id, string>)
    requires m !in g.dep && m !in n && m !in g.loaded && Grown(Added(g, m), g1, n[m := name], n1, Some(m))
    ensures m in n1 && n1[m] == name
    ensures Grown(g, g1, n, n1, None) && Grown(g, g1.(dep := g1.dep - {m}), n, n1 - {m}, None)
  {
    assert Added(g, m).loaded <= g1.loaded;
    forall x <- n ensures x in n1 && n1[x] == n[x] {
      assert x in n[m := name];
    }
    forall x <- g.dep ensures x in g1.dep && g1.dep[x] == g.dep[x] {
      assert x in Added(g, m).dep;
    }
  }

  // Modules have known names, no two the same, and come from files that fit.
  ghost predicate Named(files: map<string, File>, names: map<Id, string>, next: Id) {
    && (forall m <- names :: m < next && names[m] in files && files[names[m]].compatible)
    && forall a <- names, b <- names :: names[a] == names[b] ==> a == b
  }

  // The modules being initialised are not loaded yet; the innermost is the target of dependencies.
  ghost predicate Nested(g: Graph, inprogress: seq<Id>, target: Option<Id>) {
    && (forall m <- inprogress :: m in g.dep && m !in g.loaded)
    && Distinct(inprogress) && target == Last(inprogress)
  }

  lemma NestedMore(g: Graph, inprogress: seq<Id>, target: Option<Id>, m: Id)
    requires Nested(g, inprogress, target) && m !in g.dep && m !in g.loaded
    ensures Nested(Added(g, m), inprogress + [m], Some(m))
  {
    assert forall x <- inprogress + [m] :: x in inprogress || x == m;
  }

  lemma NestedLess(g: Graph, inprogress: seq<Id>, target: Option<Id>)
    requires Nested(g, inprogress, target) && inprogress != []
    ensures Nested(g, inprogress[..|inprogress| - 1], Last(inprogress[..|inprogress| - 1]))
    ensures inprogress[|inprogress| - 1] !in inprogress[..|inprogress| - 1]
    ensures inprogress[|inprogress| - 1] in g.dep && inprogress[|inprogress| - 1] !in g.loaded
    ensures forall x <- inprogress :: x in inprogress[..|inprogress| - 1] || x == inprogress[|inprogress| - 1]
  {
  }

  lemma NamedMore(files: map<string, File>, names: map<Id, string>, next: Id, name: string)
    requires Named(files, names, next) && name in files && files[name].compatible && forall x <- names :: names[x] != name
    ensures Named(files, names[next := name], next + 1)
  {
  }

  lemma GrownCompleted(g: Graph, g1: Graph, n: map<Id, string>, n1: map<Id, string>, m: Id)
    requires (g == g1 && n == n1) || Grown(g, g1, n, n1, None)
    ensures Grown(g, Completed(g1, m), n, n1, None) && Grown(g, Completed(g1, m), n, n1, Some(m))
  {
  }

  function Last(s: seq<Id>): Option<Id> {
    if s == [] then None else Some(s[|s| - 1])
  }

  ghost predicate AllSatisfied(files: map<string, File>, g: Graph, names: map<Id, string>, m: Id, ops: seq<Op>) {
    forall op <- ops :: Satisfied(files, g, names, m, op)
  }

  lemma NoneSatisfied(files: map<string, File>, g: Graph, names: map<Id, string>, m: Id, ops: seq<Op>)
    ensures AllSatisfied(files, g, names, m, ops[..0])
  {
  }

  lemma OneMoreSatisfied(files: map<string, File>, g: Graph, names: map<Id, string>, m: Id, ops: seq<Op>, i: nat)
    requires i < |ops| && AllSatisfied(files, g, names, m, ops[..i]) && Satisfied(files, g, names, m, ops[i])
    ensures AllSatisfied(files, g, names, m, ops[..i + 1])
  {
    assert forall op <- ops[..i + 1] :: op in ops[..i] || op == ops[i];
  }

  lemma AllSatisfiedStill(files: map<string, File>, g0: Graph, g1: Graph, n0: map<Id, string>, n1: map<Id, string>,
                          m: Id, ops: seq<Op>)
    requires Grown(g0, g1, n0, n1, Some(m)) && AllSatisfied(files, g0, n0, m, ops)
    ensures AllSatisfied(files, g1, n1, m, ops)
  {
    forall op <- ops ensures Satisfied(files, g1, n1, m, op) {
      SatisfiedStill(files, g0, g1, n0, n1, Some(m), m, op);
    }
  }

  // One more step of the init code is done.
  lemma OpDone(files: map<string, File>, g0: Graph, g1: Graph, n0: map<Id, string>, n1: map<Id, string>,
               m: Id, ops: seq<Op>, i: nat)
    requires i < |ops| && Grown(g0, g1, n0, n1, Some(m)) && AllSatisfied(files, g0, n0, m, ops[..i])
    requires Satisfied(files, g1, n1, m, ops[i])
    ensures AllSatisfied(files, g1, n1, m, ops[..i + 1])
  {
    AllSatisfiedStill(files, g0, g1, n0, n1, m, ops[..i]);
    OneMoreSatisfied(files, g1, n1, m, ops, i);
  }

  // What stopped the init code still does when the module is gone.
  lemma StoppedStill(files: map<string, File>, names: map<Id, string>, m: Id, loaded: seq<Id>, ops: seq<Op>)
    requires m !in loaded && Stopped(files, names, loaded, ops)
    ensures Stopped(files, names - {m}, loaded, ops)
  {
    forall name ensures Has(names, loaded, name) <==> Has(names - {m}, loaded, name) {
      if Has(names, loaded, name) {
        var x :| x in loaded && x in names && names[x] == name;
        assert x in names - {m} && (names - {m})[x] == name;
      }
    }
    var op :| op in ops && !GoesOn(files, names, loaded, op);
    assert !GoesOn(files, names - {m}, loaded, op);
  }

  lemma StoppedBy(files: map<string, File>, names: map<Id, string>, loaded: seq<Id>, ops: seq<Op>, i: nat)
    requires i < |ops| && !GoesOn(files, names, loaded, ops[i])
    ensures Stopped(files, names, loaded, ops)
  {
    assert ops[i] in ops;
  }

  lemma OneLessConflict(files: map<string, File>, g0: Graph, g1: Graph, n0: map<Id, string>, n1: map<Id, string>,
                        target: Option<Id>, ops: seq<Op>, i: nat)
    requires i < |ops| && Grown(g0, g1, n0, n1, target) && NoConflict(n0, g0.loaded, ops[..i])
    requires GoesOn(files, n1, g1.loaded, ops[i])
    ensures NoConflict(n0, g0.loaded, ops[..i + 1])
  {
    assert forall op <- ops[..i + 1] :: op in ops[..i] || op == ops[i];
    if ops[i].Conflict? && Has(n0, g0.loaded, ops[i].name) {
      HasStill(n0, n1, g0.loaded, g1.loaded, ops[i].name);
    }
  }

  lemma NoConflictBefore(names: map<Id, string>, loaded: seq<Id>, ops: seq<Op>, m: Id, name: string)
    requires m !in loaded && NoConflict(names[m := name], loaded, ops)
    ensures NoConflict(names, loaded, ops)
  {
    forall op <- ops, x <- loaded | op.Conflict? && x in names ensures names[x] != op.name {
      assert x in names[m := name] && names[m := name][x] == names[x];
    }
  }

  lemma SafeGrown(files: map<string, File>, g0: Graph, g1: Graph, n0: map<Id, string>, n1: map<Id, string>, target: Option<Id>,
                  inprogress: seq<Id>, rank: map<string, nat>, name: string)
    requires Grown(g0, g1, n0, n1, target) && forall x <- inprogress :: x in n0
    ensures Safe(files, n0, inprogress, rank, name) ==> Safe(files, n1, inprogress, rank, name)
  {
  }

  // What has been brought about stays so, and the next step brings about what was asked when it ran.
  lemma OneMoreBrought(files: map<string, File>, g: Graph, g0: Graph, g1: Graph,
                       n: map<Id, string>, n0: map<Id, string>, n1: map<Id, string>,
                       inprogress: seq<Id>, rank: map<string, nat>, m: Id, ops: seq<Op>, i: nat)
    requires i < |ops| && Grown(g, g0, n, n0, Some(m)) && Grown(g0, g1, n0, n1, Some(m)) && forall x <- inprogress :: x in n
    requires AllBrought(files, n, g.loaded, inprogress, rank, g0, n0, m, ops[..i])
    requires Brought(files, n0, g0.loaded, inprogress, rank, g1, n1, m, ops[i])
    ensures AllBrought(files, n, g.loaded, inprogress, rank, g1, n1, m, ops[..i + 1])
  {
    forall op <- ops[..i + 1] ensures Brought(files, n, g.loaded, inprogress, rank, g1, n1, m, op) {
      assert op in ops[..i] || op == ops[i];
      BroughtStill(files, g, g0, g1, n, n0, n1, inprogress, rank, m, op);
    }
  }

  lemma BroughtStill(files: map<string, File>, g: Graph, g0: Graph, g1: Graph,
                     n: map<Id, string>, n0: map<Id, string>, n1: map<Id, string>,
                     inprogress: seq<Id>, rank: map<string, nat>, m: Id, op: Op)
    requires Grown(g, g0, n, n0, Some(m)) && Grown(g0, g1, n0, n1, Some(m)) && forall x <- inprogress :: x in n
    requires Brought(files, n, g.loaded, inprogress, rank, g0, n0, m, op) || Brought(files, n0, g0.loaded, inprogress, rank, g1, n1, m, op)
    ensures Brought(files, n, g.loaded, inprogress, rank, g1, n1, m, op)
  {
    match op
    case Request(name) =>
      if Has(n0, g0.loaded, name) {
        HasStill(n0, n1, g0.loaded, g1.loaded, name);
      }
    case Locate(name, _) =>
      if Has(n, g.loaded, name) {
        HasStill(n, n0, g.loaded, g0.loaded, name);
      }
      if m in g0.dep && Has(n0, g0.dep[m], name) {
        HasStill(n0, n1, g0.dep[m], g1.dep[m], name);
      }
    case _ =>
  }

  // The files not being initialised: what nested requests can still load.
  ghost function Available(files: map<string, File>, inprogress: seq<Id>, names: map<Id, string>): set<string> {
    files.Keys - set m <- inprogress | m in names :: names[m]
  }

  lemma AvailableSame(files: map<string, File>, inprogress: seq<Id>, g0: Graph, g1: Graph,
                      n0: map<Id, string>, n1: map<Id, string>, target: Option<Id>)
    requires Grown(g0, g1, n0, n1, target) && forall m <- inprogress :: m in n0
    ensures Available(files, inprogress, n0) == Available(files, inprogress, n1)
  {
    forall x ensures x in Available(files, inprogress, n0) <==> x in Available(files, inprogress, n1) {
      assert (exists m <- inprogress :: n0[m] == x) <==> exists m <- inprogress :: n1[m] == x;
    }
  }

  lemma AvailableLess(files: map<string, File>, inprogress: seq<Id>, names: map<Id, string>, m: Id, name: string)
    requires name in files && !Has(names, inprogress, name) && m !in inprogress
    requires forall x <- inprogress :: x in names
    ensures Available(files, inprogress + [m], names[m := name]) < Available(files, inprogress, names)
  {
    var a, b := Available(files, inprogress + [m], names[m := name]), Available(files, inprogress, names);
    forall x <- a ensures x in b {
      forall y <- inprogress ensures names[y] != x {
        assert y in inprogress + [m] && names[m := name][y] == names[y];
      }
    }
    assert name in b;
    assert m in inprogress + [m] && names[m := name][m] == name;
    assert name !in a;
  }

  class Registry {
    // the files that can be opened, by the name they are asked for
    const files: map<string, File>
    var loaded: seq<Id>
    var inprogress: seq<Id>
    var modtarget: Option<Id>
    var names: map<Id, string>
    var dep: map<Id, seq<Id>>
    var host: map<Id, seq<Id>>
    var next: Id
    // modules whose file has been closed, in order
    var closed: seq<Id>

    ghost function G(): Graph
      reads this
    {
      Graph(dep, host, loaded)
    }

    ghost predicate Valid()
      reads this
    {
      Sound(G()) && names.Keys == dep.Keys && Named(files, names, next) && Nested(G(), inprogress, modtarget)
    }

    lemma Domains()
      requires Valid()
      ensures dep.Keys == host.Keys == names.Keys && next !in dep
      ensures forall m <- loaded :: m in names
      ensures forall m <- inprogress :: m in names
      ensures forall m <- names :: names[m] in files && files[names[m]].compatible
      ensures forall a <- names, b <- names :: names[a] == names[b] ==> a == b
    {
    }

    // Every module is loaded or being initialised.
    ghost predicate Tracked()
      reads this
    {
      forall m <- dep :: m in loaded || m in inprogress
    }

    constructor (files: map<string, File>)
      ensures Valid() && Tracked() && inprogress == [] && loaded == [] && this.files == files
    {
      this.files := files;
      loaded, inprogress, modtarget, names := [], [], None, map[];
      dep, host, next, closed := map[], map[], 0, [];
    }

    // ---- module_unload() ----

    // Tells the modules m depends on that it no longer exists.
    method LeaveHosts(m: Id)
      requires Sound(G()) && m in dep
      modifies this`dep, this`host
      ensures dep == old(dep)[m := []] && host.Keys == old(host).Keys
      ensures forall x <- host :: host[x] == Without(old(host)[x], {m})
    {
      hide Mirrored, Ordered, Before, Without, Deleted;
      ghost var g := G();
      var hosts := dep[m];
      var k := 0;
      while k < |hosts|
        invariant 0 <= k <= |hosts| && hosts == g.dep[m]
        invariant dep == g.dep[m := hosts[k..]] && host.Keys == g.host.Keys && loaded == g.loaded
        invariant forall x <- host :: host[x] == if x in hosts[..k] then Without(g.host[x], {m}) else g.host[x]
      {
        var h := dep[m][0];
        assert h == hosts[k] && h !in hosts[..k];
        HostsKnown(g, m, h);
        DeletedOnly(g.host[h], m);
        host := host[h := Deleted(host[h], m)];
        dep := dep[m := dep[m][1..]];
        k := k + 1;
      }
      forall x <- g.host ensures host[x] == Without(g.host[x], {m}) {
        if x !in hosts {
          NotListed(g, m, x);
        }
      }
    }

    // Tells the modules m depends on that it no longer exists, takes it out of the loaded modules
    // and closes it.
    method Detach(m: Id)
      requires Valid() && m in dep && m in host && host[m] == [] && m !in inprogress
      modifies this`loaded, this`dep, this`host, this`names, this`closed
      ensures Valid() && G() == Remove(old(G()), {m})
      ensures names == old(names) - {m} && closed == old(closed) + [m]
    {
      hide Without, Deleted, Remove, Lists, Mirrored, Ordered;
      ghost var g := G();
      LeaveHosts(m);
      Detached(g, m, dep, host);
      loaded := Deleted(loaded, m);
      closed := closed + [m];
      dep, host, names := dep - {m}, host - {m}, names - {m};
    }

    method Unload(m: Id)
      requires Valid() && m in dep && m !in inprogress && (host[m] != [] ==> inprogress == [])
      modifies this`loaded, this`dep, this`host, this`names, this`closed
      ensures Valid()
      ensures G() == Remove(old(G()), Dependents(old(dep), m))
      ensures old(closed) <= closed && DependentsFirst(old(dep), closed[|old(closed)|..])
      ensures forall x :: x in closed[|old(closed)|..] <==> x in Dependents(old(dep), m)
      ensures names == old(names) - Dependents(old(dep), m)
      decreases Dependents(dep, m)
    {
      hide Sound, Named, Closed, Remove, DependsOn, Dependents, DependentsFirst, Without;
      ghost var g, gone: set<Id>, c := G(), {}, |closed|;
      assert Sound(g);
      hide Valid;
      GraphDomain(g);
      RemoveNothing(g);
      OrderSmall(g.dep, m);
      assert closed[c..] == [];
      while host[m] != []
        invariant Valid() && m in dep && m in host && (inprogress != [] ==> host[m] == [])
        invariant gone <= Dependents(g.dep, m) - {m} && Closed(g, gone) && G() == Remove(g, gone)
        invariant names == old(names) - gone
        invariant old(closed) <= closed && DependentsFirst(g.dep, closed[c..])
        invariant forall x :: x in closed[c..] <==> x in gone
        decreases Dependents(g.dep, m) - gone
      {
        var d := host[m][0];
        ghost var more, order := Dependents(dep, d), closed;
        UnloadNext(g, gone, m, d);
        Unload(d);
        UnloadedMore(g, gone, more, order[c..], closed[|order|..]);
        assert closed[c..] == order[c..] + closed[|order|..];
        NamesLeft(old(names), gone, more);
        gone := gone + more;
      }
      ghost var order := closed;
      AllGone(g, gone, m);
      OrderSmall(dep, m);
      Detach(m);
      UnloadedMore(g, gone, {m}, order[c..], [m]);
      NamesLeft(old(names), gone, {m});
      assert closed[c..] == order[c..] + [m];
    }

    // ---- module_find_published() ----

    method FindPublished(name: string) returns (r: Option<Id>)
      requires Valid()
      ensures r.None? <==> !Has(names, loaded, name)
      ensures r.Some? ==> r.value in loaded && r.value in names && names[r.value] == name
      ensures r.Some? ==> name in files && files[name].compatible
    {
      Domains();
      hide Valid;
      var i := 0;
      while i < |loaded|
        invariant 0 <= i <= |loaded|
        invariant forall k :: 0 <= k < i ==> names[loaded[k]] != name
      {
        if names[loaded[i]] == name {
          return Some(loaded[i]);
        }
        i := i + 1;
      }
      return None;
    }

    // ---- module_locate_symbol() ----

    lemma TargetKnown()
      requires Valid()
      ensures modtarget.Some? ==> modtarget.value in inprogress && modtarget.value in dep
      ensures forall m <- loaded :: m in host
    {
    }

    method LocateSymbol(name: string, sym: string) returns (found: bool)
      requires Valid() && Tracked()
      modifies this`dep, this`host
      ensures Valid() && Tracked() && dep.Keys == old(dep).Keys
      ensures found <==> Has(names, loaded, name) && name in files && sym in files[name].symbols
      ensures Has(names, loaded, name) && modtarget.Some? ==> modtarget.value in dep && Has(names, dep[modtarget.value], name)
      ensures forall x <- dep :: dep[x] == old(dep[x]) || (modtarget == Some(x) && old(dep[x]) <= dep[x])
      ensures Grown(old(G()), G(), names, names, modtarget)
    {
      hide Sound, Named, Nested;
      Domains();
      TargetKnown();
      var r := FindPublished(name);
      if r.None? {
        return false;
      }
      var m := r.value;
      if modtarget.Some? && m !in dep[modtarget.value] {
        Link(modtarget.value, m);
      }
      return sym in files[name].symbols;
    }

    // Adds h to deplist of m, and m to dephost of h.
    method Link(m: Id, h: Id)
      requires Valid() && m in inprogress && h in loaded && m in dep && h in host && h !in dep[m]
      modifies this`dep, this`host
      ensures Valid() && dep == old(dep)[m := old(dep)[m] + [h]]
    {
      hide Sound;
      LinkedSound(G(), m, h);
      dep := dep[m := dep[m] + [h]];
      host := host[h := host[h] + [m]];
    }

    // ---- module_request(), module_load() and the init code ----

    method Request(name: string, ghost rank: map<string, nat>) returns (ok: bool)
      requires Valid() && Tracked()
      modifies this`loaded, this`inprogress, this`modtarget, this`dep, this`host, this`names, this`next, this`closed
      ensures Valid() && Tracked() && inprogress == old(inprogress) && modtarget == old(modtarget)
      ensures ok <==> Has(names, loaded, name)
      ensures Grown(old(G()), G(), old(names), names, None)
      ensures old(Reachable(files, names, inprogress, rank, name)) ==> ok
      decreases Available(files, inprogress, names), 2
    {
      var r := FindPublished(name);
      if r.Some? {
        return true;
      }
      var i := 0;
      while i < |inprogress|
        invariant 0 <= i <= |inprogress|
        invariant forall k :: 0 <= k < i ==> names[inprogress[k]] != name
      {
        if names[inprogress[i]] == name {
          return false;
        }
        i := i + 1;
      }
      var m := Load(name, rank);
      return m.Some?;
    }

    method Load(name: string, ghost rank: map<string, nat>) returns (r: Option<Id>)
      requires Valid() && Tracked() && !Has(names, inprogress, name)
      modifies this`loaded, this`inprogress, this`modtarget, this`dep, this`host, this`names, this`next, this`closed
      ensures Valid() && Tracked() && inprogress == old(inprogress)
      ensures Grown(old(G()), G(), old(names), names, None)
      ensures r.Some? ==> loaded != [] && loaded[|loaded| - 1] == r.value && r.value !in old(dep) && names[r.value] == name
      ensures r.Some? ==> name in files && files[name].compatible
      ensures r.Some? ==> AllSatisfied(files, G(), names, r.value, files[name].init)
      ensures r.Some? ==> NoConflict(old(names), old(loaded), files[name].init)
      ensures name in files && files[name].compatible && !old(Has(names, loaded, name)) && r.None? ==>
                Stopped(files, names, loaded, files[name].init)
      ensures old(Reachable(files, names, inprogress, rank, name)) && !old(Has(names, loaded, name)) ==> r.Some?
      ensures r.None? ==> (Has(names, loaded, name) <==> old(Has(names, loaded, name)))
      ensures old(Has(names, loaded, name)) ==> r.None? && G() == old(G())
      decreases Available(files, inprogress, names), 1
    {
      hide Valid, Has, Grown, AllSatisfied, NoConflict, Stopped, Reachable, Satisfied, Pending, Available;
      GrownNot(G(), names, None);
      var found := FindPublished(name);
      if found.Some? {
        return None;
      }
      r := LoadInternal(name, rank);
      if r.Some? {
        ghost var g := G();
        GrownCompleted(old(G()), g, old(names), names, r.value);
        GrownCompleted(g, g, names, names, r.value);
        AllSatisfiedStill(files, g, Completed(g, r.value), names, names, r.value, files[name].init);
        Enlist(r.value);
      }
    }

    // The end of module_load(): the module joins the loaded ones.
    method Enlist(m: Id)
      requires Valid() && Pending(Some(m))
      modifies this`loaded
      ensures Valid() && Tracked() && G() == Completed(old(G()), m)
    {
      hide Sound, Named;
      CompletedSound(G(), m);
      loaded := loaded + [m];
    }

    // A module that is loaded but not yet among the modules, or none.
    ghost predicate Pending(r: Option<Id>)
      reads this
    {
      && (r.Some? ==> r.value in dep && r.value !in loaded && r.value !in inprogress)
      && forall m <- dep :: m in loaded || m in inprogress || r == Some(m)
    }

    lemma LastKnown()
      requires Valid()
      ensures modtarget == Last(inprogress)
    {
    }

    method LoadInternal(name: string, ghost rank: map<string, nat>) returns (r: Option<Id>)
      requires Valid() && Tracked() && !Has(names, inprogress, name)
      modifies this`loaded, this`inprogress, this`modtarget, this`dep, this`host, this`names, this`next, this`closed
      ensures Valid() && Pending(r) && inprogress == old(inprogress)
      ensures Grown(old(G()), G(), old(names), names, None)
      ensures Has(names, loaded, name) <==> old(Has(names, loaded, name))
      ensures r.Some? ==> r.value !in old(dep) && r.value in names && names[r.value] == name
      ensures r.Some? ==> name in files && files[name].compatible
      ensures r.Some? ==> AllSatisfied(files, G(), names, r.value, files[name].init)
      ensures r.Some? ==> NoConflict(old(names), old(loaded), files[name].init)
      ensures name in files && files[name].compatible && !old(Has(names, loaded, name)) && r.None? ==>
                Stopped(files, names, loaded, files[name].init)
      ensures old(Reachable(files, names, inprogress, rank, name)) && !old(Has(names, loaded, name)) ==> r.Some?
      decreases Available(files, inprogress, names), 0
    {
      GrownNot(G(), names, None);
      if name !in files || !files[name].compatible {
        return None;
      }
      var found := FindPublished(name);
      if found.Some? {
        return None;
      }
      r := LoadFile(name, rank);
    }

    method LoadFile(name: string, ghost rank: map<string, nat>) returns (r: Option<Id>)
      requires Valid() && Tracked() && !Has(names, inprogress, name) && !Has(names, loaded, name)
      requires name in files && files[name].compatible
      modifies this`loaded, this`inprogress, this`modtarget, this`dep, this`host, this`names, this`next, this`closed
      ensures Valid() && Pending(r) && inprogress == old(inprogress)
      ensures Grown(old(G()), G(), old(names), names, None) && !Has(names, loaded, name)
      ensures r.Some? ==> r.value !in old(dep) && r.value in names && names[r.value] == name
      ensures r.Some? ==> AllSatisfied(files, G(), names, r.value, files[name].init)
      ensures r.Some? ==> NoConflict(old(names), old(loaded), files[name].init)
      ensures r.None? ==> Stopped(files, names, loaded, files[name].init)
      ensures old(Reachable(files, names, inprogress, rank, name)) ==> r.Some?
      decreases Available(files, inprogress, names), 0, 1
    {
      hide Grown, AllSatisfied, Available, Valid, Has, Pending, NoConflict, Stopped, Reachable;
      LastKnown();
      var target := modtarget;
      var m, ok := Initialise(name, rank);
      Leave(target);
      if ok {
        return Some(m);
      }
      ghost var g, n := G(), names;
      DiscardEmbryo(m);
      StoppedStill(files, n, m, loaded, files[name].init);
      GrownAlike(old(G()), g.(dep := g.dep - {m}), G(), old(names), names, None);
      return None;
    }

    method Initialise(name: string, ghost rank: map<string, nat>) returns (m: Id, ok: bool)
      requires Valid() && Tracked() && !Has(names, inprogress, name) && !Has(names, loaded, name)
      requires name in files && files[name].compatible
      modifies this`loaded, this`inprogress, this`modtarget, this`dep, this`host, this`names, this`next, this`closed
      ensures Valid() && Tracked() && inprogress == old(inprogress) + [m] && m !in old(dep)
      ensures m in names && names[m] == name && !Has(names, loaded, name) && !Has(names - {m}, loaded, name)
      ensures Grown(old(G()), G(), old(names), names, None)
      ensures Grown(old(G()), G().(dep := dep - {m}), old(names), names - {m}, None)
      ensures ok ==> AllSatisfied(files, G(), names, m, files[name].init)
      ensures ok ==> NoConflict(old(names), old(loaded), files[name].init)
      ensures !ok ==> Stopped(files, names, loaded, files[name].init)
      ensures m !in loaded
      ensures old(Reachable(files, names, inprogress, rank, name)) ==> ok
      decreases Available(files, inprogress, names), 0, 0
    {
      hide Grown, AllSatisfied, Available, Valid, Has, Pending, NoConflict, Stopped, Reachable, Safe;
      m := Enter(name, rank);
      ok := RunInit(m, rank);
      GrownByOne(old(G()), m, G(), old(names), name, names);
      NotPublished(m, name);
      if ok {
        NoConflictBefore(old(names), old(loaded), files[name].init, m, name);
      }
    }

    // Allocates a module and makes it the innermost one being initialised.
    method Enter(name: string, ghost rank: map<string, nat>) returns (m: Id)
      requires name in files && files[name].compatible
      requires Valid() && Tracked() && !Has(names, inprogress, name) && !Has(names, loaded, name)
      modifies this`inprogress, this`modtarget, this`dep, this`host, this`names, this`next
      ensures Valid() && Tracked() && m == old(next) && m !in old(dep) && m !in old(names) && m !in old(loaded)
      ensures G() == Added(old(G()), m) && names == old(names)[m := name]
      ensures inprogress == old(inprogress) + [m] && modtarget == Some(m)
      ensures Available(files, inprogress, names) < Available(files, old(inprogress), old(names))
      ensures old(Reachable(files, names, inprogress, rank, name)) ==> Safe(files, names, inprogress, rank, name)
    {
      hide Sound, Available, Named, Nested, Reachable, Safe;
      m := next;
      Domains();
      SafeEntered(files, names, inprogress, rank, m, name);
      AddedSound(G(), m);
      AvailableLess(files, inprogress, names, m, name);
      NewName(m, name);
      NamedMore(files, names, next, name);
      NestedMore(G(), inprogress, modtarget, m);
      dep, host, names, next := dep[m := []], host[m := []], names[m := name], next + 1;
      inprogress, modtarget := inprogress + [m], Some(m);
    }

    lemma NewName(m: Id, name: string)
      requires Valid() && Tracked() && !Has(names, inprogress, name) && !Has(names, loaded, name)
      ensures forall x <- names :: names[x] != name
    {
      forall x <- names ensures names[x] != name {
        assert x in loaded || x in inprogress;
      }
    }

    // The name of a module being initialised is not published.
    lemma NotPublished(m: Id, name: string)
      requires Valid() && m in names && names[m] == name && m in inprogress
      ensures !Has(names, loaded, name) && !Has(names - {m}, loaded, name) && m !in loaded
    {
    }

    // The innermost module's init code is over.
    method Leave(target: Option<Id>)
      requires Valid() && Tracked() && inprogress != [] && target == Last(inprogress[..|inprogress| - 1])
      modifies this`inprogress, this`modtarget
      ensures Valid() && inprogress == old(inprogress)[..|old(inprogress)| - 1]
      ensures Pending(Last(old(inprogress)))
    {
      hide Sound, Named, Nested;
      NestedLess(G(), inprogress, modtarget);
      inprogress, modtarget := inprogress[..|inprogress| - 1], target;
    }

    // module_unload() of a module whose init failed: nothing depends on it, so only it goes.
    method DiscardEmbryo(m: Id)
      requires Valid() && Pending(Some(m))
      modifies this`loaded, this`dep, this`host, this`names, this`closed
      ensures Valid() && Pending(None) && loaded == old(loaded) && dep == old(dep) - {m} && names == old(names) - {m}
    {
      Domains();
      EmbryoGone(G(), m);
      hide Valid, Remove, Dependents;
      Unload(m);
    }

    lemma InitNamed()
      requires Valid()
      ensures forall x <- inprogress :: x in names
      ensures modtarget.Some? ==> modtarget.value in names && names[modtarget.value] in files
    {
    }

    method RunInit(m: Id, ghost rank: map<string, nat>) returns (ok: bool)
      requires Valid() && Tracked() && modtarget == Some(m)
      modifies this`loaded, this`inprogress, this`modtarget, this`dep, this`host, this`names, this`next, this`closed
      ensures Valid() && Tracked() && inprogress == old(inprogress)
      ensures Grown(old(G()), G(), old(names), names, Some(m))
      ensures ok ==> AllSatisfied(files, G(), names, m, files[old(names)[m]].init)
      ensures ok ==> NoConflict(old(names), old(loaded), files[old(names)[m]].init)
      ensures !ok ==> Stopped(files, names, loaded, files[old(names)[m]].init)
      ensures old(Safe(files, names, inprogress, rank, names[m])) ==> ok
      ensures ok ==> AllBrought(files, old(names), old(loaded), inprogress, rank, G(), names, m, files[old(names)[m]].init)
      decreases Available(files, inprogress, names), 3
    {
      InitNamed();
      hide *;
      var init, i := files[names[m]].init, 0;
      GrownNot(G(), names, Some(m));
      NoneSatisfied(files, G(), names, m, init);
      while i < |init|
        invariant 0 <= i <= |init|
        invariant Valid() && Tracked() && inprogress == old(inprogress) && modtarget == Some(m)
        invariant Grown(old(G()), G(), old(names), names, Some(m))
        invariant AllSatisfied(files, G(), names, m, init[..i])
        invariant NoConflict(old(names), old(loaded), init[..i])
        invariant AllBrought(files, old(names), old(loaded), inprogress, rank, G(), names, m, init[..i])
        invariant old(Safe(files, names, inprogress, rank, names[m])) ==> Safe(files, names, inprogress, rank, old(names)[m])
      {
        AvailableSame(files, inprogress, old(G()), G(), old(names), names, Some(m));
        ghost var g, n := G(), names;
        var done := RunOp(m, init[i], old(names)[m], rank);
        if done {
          OneMoreBrought(files, old(G()), g, G(), old(names), n, names, inprogress, rank, m, init, i);
        }
        GrownTwice(old(G()), g, G(), old(names), n, names, Some(m));
        SafeGrown(files, g, G(), n, names, Some(m), inprogress, rank, old(names)[m]);
        if !done {
          StoppedBy(files, names, loaded, init, i);
          return false;
        }
        OneLessConflict(files, old(G()), G(), old(names), names, Some(m), init, i);
        OpDone(files, g, G(), n, names, m, init, i);
        i := i + 1;
      }
      assert init[..|init|] == init;
      return true;
    }

    // MODULE_TRY_REQUEST_SYMBOL
    method TrySymbol(m: Id, name: string, sym: string, ghost rank: map<string, nat>) returns (ok: bool)
      requires Valid() && Tracked() && modtarget == Some(m)
      modifies this`loaded, this`inprogress, this`modtarget, this`dep, this`host, this`names, this`next, this`closed
      ensures Valid() && Tracked() && inprogress == old(inprogress)
      ensures modtarget == Some(m) && Grown(old(G()), G(), old(names), names, Some(m))
      ensures ok <==> Has(names, loaded, name) && name in files && sym in files[name].symbols
      ensures ok ==> m in dep && Has(names, dep[m], name)
      ensures old(Reachable(files, names, inprogress, rank, name)) && name in files && sym in files[name].symbols ==> ok
      decreases Available(files, inprogress, names), 3, 0, 0
    {
      hide Reachable, Named, Sound, Nested, Available, Grown, Has, Tracked, Valid;
      InitNamed();
      ok := LocateSymbol(name, sym);
      if !ok {
        ghost var g := G();
        AvailableSame(files, inprogress, old(G()), G(), old(names), names, Some(m));
        ok := Request(name, rank);
        GrownWider(g, G(), old(names), names, m);
        GrownTwice(old(G()), g, G(), old(names), old(names), names, Some(m));
        if ok {
          ghost var g1, n1 := G(), names;
          ok := LocateSymbol(name, sym);
          GrownTwice(old(G()), g1, G(), old(names), n1, names, Some(m));
        }
      }
    }

    // One step of the init code.
    method RunOp(m: Id, op: Op, ghost self: string, ghost rank: map<string, nat>) returns (ok: bool)
      requires Valid() && Tracked() && modtarget == Some(m)
      modifies this`loaded, this`inprogress, this`modtarget, this`dep, this`host, this`names, this`next, this`closed
      ensures Valid() && Tracked() && inprogress == old(inprogress)
      ensures modtarget == Some(m) && Grown(old(G()), G(), old(names), names, Some(m))
      ensures ok <==> GoesOn(files, names, loaded, op)
      ensures ok ==> Satisfied(files, G(), names, m, op)
      ensures op.Conflict? || op.Fail? ==> G() == old(G()) && names == old(names)
      ensures ok ==> Brought(files, old(names), old(loaded), inprogress, rank, G(), names, m, op)
      ensures self in files && op in files[self].init && old(Safe(files, names, inprogress, rank, self)) ==> ok
      decreases Available(files, inprogress, names), 3, 0
    {
      hide Safe, Reachable, Harmless, Grown, Has, Named, Sound, Nested, Available, Tracked, Valid;
      InitNamed();
      GrownNot(G(), names, Some(m));
      if self in files && op in files[self].init && Safe(files, names, inprogress, rank, self) {
        SafeStep(files, names, inprogress, rank, self, op);
      }
      match op
      case Request(name) =>
        var found := Request(name, rank);
        GrownWider(old(G()), G(), old(names), names, m);
        return true;
      case TryRequest(name) =>
        ok := Request(name, rank);
        GrownWider(old(G()), G(), old(names), names, m);
      case Locate(name, sym) =>
        var found := LocateSymbol(name, sym);
        return true;
      case TrySymbol(name, sym) =>
        ok := TrySymbol(m, name, sym, rank);
      case Conflict(name) =>
        var r := FindPublished(name);
        return r.None?;
      case Fail =>
        return false;
    }
  }
}
