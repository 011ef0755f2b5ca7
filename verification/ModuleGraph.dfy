// The dependency graph of loaded modules: deplist and dephost, and who depends on whom
// (libathemecore/module.c).
module ModuleGraph {
  import opened LinkedLists

  // Both lists of every module, and the loaded modules in the order their loading was completed.
  datatype Graph = Graph(dep: map<Id, seq<Id>>, host: map<Id, seq<Id>>, loaded: seq<Id>)

  ghost predicate Lists(g: Graph) {
    && g.dep.Keys == g.host.Keys && Distinct(g.loaded) && (forall m <- g.loaded :: m in g.dep)
    && forall m <- g.dep :: Distinct(g.dep[m]) && Distinct(g.host[m])
  }

  predicate Edge(lists: map<Id, seq<Id>>, a: Id, b: Id) {
    a in lists && b in lists[a]
  }

  // deplist and dephost are each other's inverse.
  ghost predicate Mirrored(g: Graph) {
    forall m, h :: Edge(g.dep, m, h) <==> Edge(g.host, h, m)
  }

  // Modules depend on loaded modules only, and a loaded module only on modules whose loading was
  // completed before.
  ghost predicate Ordered(g: Graph) {
    && (forall m, h :: Edge(g.dep, m, h) ==> h in g.loaded)
    && (forall m, h :: Edge(g.dep, m, h) && m in g.loaded ==> Before(g.loaded, h, m))
  }

  ghost predicate Sound(g: Graph) {
    Lists(g) && Mirrored(g) && Ordered(g)
  }

  // h was completed before m.
  ghost predicate Before(order: seq<Id>, h: Id, m: Id) {
    exists i, j :: 0 <= i < j < |order| && order[i] == h && order[j] == m
  }

  // ---- who depends on m ----

  ghost predicate Path(dep: map<Id, seq<Id>>, p: seq<Id>) {
    && p != [] && (forall i :: 0 <= i < |p| ==> p[i] in dep)
    && forall i :: 0 <= i < |p| - 1 ==> Edge(dep, p[i], p[i + 1])
  }

  // x depends on m, directly or through others; m depends on itself.
  ghost predicate DependsOn(dep: map<Id, seq<Id>>, x: Id, m: Id) {
    exists p :: Path(dep, p) && p[0] == x && p[|p| - 1] == m
  }

  ghost function Dependents(dep: map<Id, seq<Id>>, m: Id): set<Id> {
    set x <- dep | DependsOn(dep, x, m)
  }

  lemma DependsOnSelf(dep: map<Id, seq<Id>>, m: Id)
    requires m in dep
    ensures DependsOn(dep, m, m)
  {
    assert Path(dep, [m]);
  }

  lemma DependsOnStep(dep: map<Id, seq<Id>>, x: Id, h: Id, m: Id)
    requires Edge(dep, x, h) && DependsOn(dep, h, m)
    ensures DependsOn(dep, x, m)
  {
    var p :| Path(dep, p) && p[0] == h && p[|p| - 1] == m;
    var q := [x] + p;
    assert forall i :: 0 <= i < |q| - 1 ==> q[i + 1] == p[i];
    assert Path(dep, q);
  }

  lemma DependsOnVia(dep: map<Id, seq<Id>>, x: Id, d: Id, m: Id)
    requires DependsOn(dep, x, d) && m in dep && Edge(dep, d, m)
    ensures DependsOn(dep, x, m)
  {
    var p :| Path(dep, p) && p[0] == x && p[|p| - 1] == d;
    var q := p + [m];
    assert Path(dep, q);
  }

  // Completion order runs along every path, so no module depends on one completed later.
  lemma {:induction false} PathOrder(g: Graph, p: seq<Id>, i: nat, j: nat)
    requires Sound(g) && Path(g.dep, p) && 0 <= i < |g.loaded| && j < |g.loaded|
    requires g.loaded[i] == p[0] && g.loaded[j] == p[|p| - 1]
    ensures j <= i && (|p| > 1 ==> j < i)
    decreases |p|
  {
    if |p| > 1 {
      var h, m := p[1], p[0];
      assert Edge(g.dep, p[0], p[0 + 1]) && m in g.loaded;
      assert Before(g.loaded, h, m);
      var k, l :| 0 <= k < l < |g.loaded| && g.loaded[k] == h && g.loaded[l] == m;
      assert l == i;
      assert Path(g.dep, p[1..]) by {
        assert forall a :: 0 <= a < |p[1..]| ==> p[1..][a] == p[a + 1];
      }
      PathOrder(g, p[1..], k, j);
    }
  }

  // The dependency graph has no cycle.
  lemma Acyclic(g: Graph, m: Id, h: Id)
    requires Sound(g) && Edge(g.dep, m, h)
    ensures !DependsOn(g.dep, h, m)
  {
    if DependsOn(g.dep, h, m) {
      var p :| Path(g.dep, p) && p[0] == h && p[|p| - 1] == m;
      if |p| > 1 {
        assert Edge(g.dep, p[|p| - 2], p[|p| - 2 + 1]);
      }
      assert m in g.loaded;
      var i :| 0 <= i < |g.loaded| && g.loaded[i] == m;
      assert Before(g.loaded, h, m);
      var k, l :| 0 <= k < l < |g.loaded| && g.loaded[k] == h && g.loaded[l] == m;
      PathOrder(g, p, k, i);
    }
  }

  // ---- removing a set of modules ----

  function Remove(g: Graph, gone: set<Id>): Graph
    requires g.dep.Keys == g.host.Keys
  {
    Graph(map x | x in g.dep && x !in gone :: g.dep[x],
          map x | x in g.host && x !in gone :: Without(g.host[x], gone),
          Without(g.loaded, gone))
  }

  // Everything that depends on a member is a member.
  ghost predicate Closed(g: Graph, gone: set<Id>) {
    forall x, h :: Edge(g.dep, x, h) && h in gone ==> x in gone
  }

  lemma {:induction false} WithoutBefore(order: seq<Id>, gone: set<Id>, h: Id, m: Id)
    requires Before(order, h, m) && h !in gone && m !in gone
    ensures Before(Without(order, gone), h, m)
  {
    var i, j :| 0 <= i < j < |order| && order[i] == h && order[j] == m;
    var rest := order[1..];
    if i == 0 {
      assert rest[j - 1] == m;
      assert m in Without(rest, gone);
      var k :| 0 <= k < |Without(rest, gone)| && Without(rest, gone)[k] == m;
      assert Without(order, gone)[0] == h && Without(order, gone)[k + 1] == m;
    } else {
      assert rest[i - 1] == h && rest[j - 1] == m;
      WithoutBefore(rest, gone, h, m);
      var k, l :| 0 <= k < l < |Without(rest, gone)| && Without(rest, gone)[k] == h && Without(rest, gone)[l] == m;
      if order[0] !in gone {
        assert Without(order, gone)[k + 1] == h && Without(order, gone)[l + 1] == m;
      }
    }
  }

  lemma RemoveLists(g: Graph, gone: set<Id>)
    requires Lists(g)
    ensures Lists(Remove(g, gone))
  {
    var r := Remove(g, gone);
    WithoutDistinct(g.loaded, gone);
    forall h <- r.host ensures Distinct(r.host[h]) {
      WithoutDistinct(g.host[h], gone);
    }
  }

  lemma RemoveMirrored(g: Graph, gone: set<Id>)
    requires Lists(g) && Mirrored(g) && Closed(g, gone)
    ensures Mirrored(Remove(g, gone))
  {
    var r := Remove(g, gone);
    forall m, h ensures Edge(r.dep, m, h) <==> Edge(r.host, h, m) {
      assert Edge(r.dep, m, h) <==> Edge(g.dep, m, h) && m !in gone;
      assert Edge(r.host, h, m) <==> Edge(g.host, h, m) && h !in gone && m !in gone;
    }
  }

  lemma RemoveOrdered(g: Graph, gone: set<Id>)
    requires Lists(g) && Ordered(g) && Closed(g, gone)
    ensures Ordered(Remove(g, gone))
  {
    var r := Remove(g, gone);
    forall m, h ensures Edge(r.dep, m, h) ==> Edge(g.dep, m, h) && m !in gone && h !in gone {
    }
    forall m, h | Edge(r.dep, m, h) && m in r.loaded ensures Before(r.loaded, h, m) {
      WithoutBefore(g.loaded, gone, h, m);
    }
  }

  // Removing a closed set leaves a sound graph.
  lemma RemoveSound(g: Graph, gone: set<Id>)
    requires Sound(g) && Closed(g, gone)
    ensures Sound(Remove(g, gone))
  {
    RemoveLists(g, gone);
    RemoveMirrored(g, gone);
    RemoveOrdered(g, gone);
  }

  lemma RemoveTwice(g: Graph, a: set<Id>, b: set<Id>)
    requires g.dep.Keys == g.host.Keys
    ensures Remove(Remove(g, a), b) == Remove(g, a + b)
  {
    WithoutTwice(g.loaded, a, b);
    forall x | x in g.host && x !in a + b ensures Without(Without(g.host[x], a), b) == Without(g.host[x], a + b) {
      WithoutTwice(g.host[x], a, b);
    }
    assert Remove(Remove(g, a), b).dep == Remove(g, a + b).dep;
    assert Remove(Remove(g, a), b).host == Remove(g, a + b).host;
  }

  lemma RemoveNothing(g: Graph)
    requires g.dep.Keys == g.host.Keys
    ensures Remove(g, {}) == g && Closed(g, {})
  {
    WithoutNone(g.loaded, {});
    forall h <- g.host ensures Without(g.host[h], {}) == g.host[h] {
      WithoutNone(g.host[h], {});
    }
    assert Remove(g, {}).dep == g.dep && Remove(g, {}).host == g.host;
  }

  // Paths of the graph that is left are paths of the graph.
  lemma StillDependsOn(g: Graph, gone: set<Id>, x: Id, m: Id)
    requires g.dep.Keys == g.host.Keys && DependsOn(Remove(g, gone).dep, x, m)
    ensures DependsOn(g.dep, x, m) && x !in gone && m !in gone
  {
    var r := Remove(g, gone).dep;
    var p :| Path(r, p) && p[0] == x && p[|p| - 1] == m;
    forall i | 0 <= i < |p| - 1 ensures Edge(g.dep, p[i], p[i + 1]) {
      assert Edge(r, p[i], p[i + 1]);
    }
    assert Path(g.dep, p);
  }

  // While m still has a dependent d, removing what depends on d removes dependents of m, but never m.
  lemma UnloadNext(g: Graph, gone: set<Id>, m: Id, d: Id)
    requires Sound(g) && Closed(g, gone) && m in g.dep && m !in gone
    requires Edge(Remove(g, gone).host, m, d)
    ensures d in Remove(g, gone).dep && d !in gone
    ensures Dependents(Remove(g, gone).dep, d) <= Remove(g, gone).dep.Keys
    ensures Dependents(Remove(g, gone).dep, d) <= Dependents(g.dep, m) - {m}
    ensures m in Dependents(g.dep, m) && d in Dependents(Remove(g, gone).dep, d)
    ensures Closed(g, gone + Dependents(Remove(g, gone).dep, d))
  {
    var r := Remove(g, gone);
    RemoveSound(g, gone);
    assert Edge(r.dep, d, m);
    DependsOnSelf(g.dep, m);
    DependsOnSelf(r.dep, d);
    forall x | x in Dependents(r.dep, d) ensures x in Dependents(g.dep, m) && x != m {
      StillDependsOn(g, gone, x, d);
      DependsOnVia(g.dep, x, d, m);
      Acyclic(r, d, m);
    }
    forall x, h | Edge(g.dep, x, h) && h in gone + Dependents(r.dep, d)
      ensures x in gone + Dependents(r.dep, d) {
      if h in Dependents(r.dep, d) && x !in gone {
        assert Edge(r.dep, x, h);
        DependsOnStep(r.dep, x, h, d);
      }
    }
  }

  lemma {:induction false} PathInside(g: Graph, gone: set<Id>, p: seq<Id>, m: Id)
    requires Closed(g, gone) && Path(g.dep, p) && p[|p| - 1] == m
    requires forall x :: Edge(g.dep, x, m) ==> x in gone
    ensures |p| > 1 ==> p[0] in gone
    decreases |p|
  {
    if |p| > 1 {
      assert Edge(g.dep, p[0], p[0 + 1]);
      assert Path(g.dep, p[1..]) by {
        assert forall a :: 0 <= a < |p[1..]| ==> p[1..][a] == p[a + 1];
      }
      PathInside(g, gone, p[1..], m);
    }
  }

  // Once nothing depends on m any more, exactly its dependents are gone.
  lemma AllGone(g: Graph, gone: set<Id>, m: Id)
    requires Sound(g) && Closed(g, gone) && m in g.dep && gone <= Dependents(g.dep, m) - {m}
    requires Remove(g, gone).host[m] == []
    ensures gone + {m} == Dependents(g.dep, m)
  {
    DependsOnSelf(g.dep, m);
    assert Without(g.host[m], gone) == [];
    forall x | Edge(g.dep, x, m) ensures x in gone {
      assert Edge(g.host, m, x);
      assert x in Without(g.host[m], gone) <==> x !in gone;
    }
    forall x | x in Dependents(g.dep, m) && x != m ensures x in gone {
      var p :| Path(g.dep, p) && p[0] == x && p[|p| - 1] == m;
      PathInside(g, gone, p, m);
    }
  }

  // ---- closing order ----

  // Modules are closed dependents first: none is closed while one that depends on it is open.
  ghost predicate DependentsFirst(dep: map<Id, seq<Id>>, order: seq<Id>) {
    forall i, j :: 0 <= i < j < |order| ==> order[i] != order[j] && !Edge(dep, order[j], order[i])
  }

  lemma OrderJoined(g: Graph, gone: set<Id>, a: seq<Id>, b: seq<Id>)
    requires g.dep.Keys == g.host.Keys && Closed(g, gone)
    requires DependentsFirst(g.dep, a) && forall x :: x in a <==> x in gone
    requires DependentsFirst(Remove(g, gone).dep, b) && forall x <- b :: x in Remove(g, gone).dep
    ensures DependentsFirst(g.dep, a + b)
  {
    var r := Remove(g, gone);
    var c := a + b;
    forall i, j | 0 <= i < j < |c| ensures c[i] != c[j] && !Edge(g.dep, c[j], c[i]) {
      if j < |a| {
        assert c[i] == a[i] && c[j] == a[j];
      } else {
        assert c[j] == b[j - |a|] && c[j] in b && c[j] in r.dep;
        if i < |a| {
          assert c[i] in a;
        } else {
          assert c[i] == b[i - |a|];
          assert r.dep[c[j]] == g.dep[c[j]];
        }
      }
    }
  }

  // Two unloadings after one another.
  lemma UnloadedMore(g: Graph, gone: set<Id>, more: set<Id>, a: seq<Id>, b: seq<Id>)
    requires g.dep.Keys == g.host.Keys && Closed(g, gone)
    requires DependentsFirst(g.dep, a) && forall x :: x in a <==> x in gone
    requires DependentsFirst(Remove(g, gone).dep, b) && forall x :: x in b <==> x in more
    requires more <= Remove(g, gone).dep.Keys
    ensures Remove(Remove(g, gone), more) == Remove(g, gone + more)
    ensures DependentsFirst(g.dep, a + b) && forall x :: x in a + b <==> x in gone + more
    ensures Remove(g, gone + more).dep.Keys == g.dep.Keys - (gone + more)
    ensures Remove(g, gone + more).host.Keys == g.dep.Keys - (gone + more)
  {
    RemoveTwice(g, gone, more);
    OrderJoined(g, gone, a, b);
  }

  lemma GraphDomain(g: Graph)
    requires Sound(g)
    ensures g.dep.Keys == g.host.Keys
  {
  }

  lemma OrderSmall(dep: map<Id, seq<Id>>, m: Id)
    ensures DependentsFirst(dep, []) && DependentsFirst(dep, [m])
  {
  }

  // ---- single steps of loading ----

  lemma HostsKnown(g: Graph, m: Id, h: Id)
    requires Lists(g) && Ordered(g) && Edge(g.dep, m, h)
    ensures h in g.host
  {
  }

  lemma NotListed(g: Graph, m: Id, x: Id)
    requires Mirrored(g) && m in g.dep && x in g.host && !Edge(g.dep, m, x)
    ensures Without(g.host[x], {m}) == g.host[x]
  {
    assert !Edge(g.host, x, m);
    WithoutNone(g.host[x], {m});
  }

  lemma HostlessIsClosed(g: Graph, m: Id)
    requires Mirrored(g) && m in g.host && g.host[m] == []
    ensures Closed(g, {m})
  {
    assert forall x :: Edge(g.dep, x, m) ==> Edge(g.host, m, x);
  }

  lemma Detached(g: Graph, m: Id, dep: map<Id, seq<Id>>, host: map<Id, seq<Id>>)
    requires Sound(g) && m in g.host && g.host[m] == []
    requires dep == g.dep[m := []] && host.Keys == g.host.Keys
    requires forall x <- host :: host[x] == Without(g.host[x], {m})
    ensures Graph(dep - {m}, host - {m}, Deleted(g.loaded, m)) == Remove(g, {m}) && Sound(Remove(g, {m}))
    ensures forall x <- Deleted(g.loaded, m) :: x in g.loaded
    ensures Remove(g, {m}).dep.Keys == g.dep.Keys - {m}
  {
    HostlessIsClosed(g, m);
    RemoveSound(g, {m});
    DeletedOnly(g.loaded, m);
    assert dep - {m} == Remove(g, {m}).dep;
    assert host - {m} == Remove(g, {m}).host;
  }

  function Added(g: Graph, m: Id): Graph {
    Graph(g.dep[m := []], g.host[m := []], g.loaded)
  }

  lemma AddedSound(g: Graph, m: Id)
    requires Sound(g) && m !in g.dep
    ensures Sound(Added(g, m))
  {
    var r := Added(g, m);
    forall x, h ensures (Edge(r.dep, x, h) <==> Edge(g.dep, x, h)) && (Edge(r.host, x, h) <==> Edge(g.host, x, h)) {
    }
  }

  function Linked(g: Graph, m: Id, h: Id): Graph
    requires m in g.dep && h in g.host
  {
    Graph(g.dep[m := g.dep[m] + [h]], g.host[h := g.host[h] + [m]], g.loaded)
  }

  lemma LinkedSound(g: Graph, m: Id, h: Id)
    requires Sound(g) && m in g.dep && m !in g.loaded && h in g.loaded && !Edge(g.dep, m, h)
    ensures Sound(Linked(g, m, h))
  {
    var r := Linked(g, m, h);
    assert !Edge(g.host, h, m);
    forall x, y ensures Edge(r.dep, x, y) <==> Edge(g.dep, x, y) || (x == m && y == h) {
    }
    forall x, y ensures Edge(r.host, y, x) <==> Edge(g.host, y, x) || (x == m && y == h) {
    }
  }

  function Completed(g: Graph, m: Id): Graph {
    Graph(g.dep, g.host, g.loaded + [m])
  }

  lemma CompletedSound(g: Graph, m: Id)
    requires Sound(g) && m in g.dep && m !in g.loaded
    ensures Sound(Completed(g, m))
  {
    var r := Completed(g, m);
    forall x, h | Edge(r.dep, x, h) && x in r.loaded ensures Before(r.loaded, h, x) {
      assert Edge(g.dep, x, h) && h in g.loaded;
      var i :| 0 <= i < |g.loaded| && g.loaded[i] == h;
      if x == m {
        assert r.loaded[i] == h && r.loaded[|g.loaded|] == m;
      } else {
        assert Before(g.loaded, h, x);
        var k, l :| 0 <= k < l < |g.loaded| && g.loaded[k] == h && g.loaded[l] == x;
        assert r.loaded[k] == h && r.loaded[l] == x;
      }
    }
    assert forall x, h :: Edge(r.dep, x, h) ==> Edge(g.dep, x, h);
  }

  // A module whose loading is not complete has no dependents.
  lemma EmbryoHasNoHosts(g: Graph, m: Id)
    requires Sound(g) && m in g.dep && m !in g.loaded
    ensures g.host[m] == []
  {
    assert forall x :: Edge(g.dep, x, m) ==> m in g.loaded;
    assert g.host[m] != [] ==> Edge(g.host, m, g.host[m][0]);
  }

  // Unloading a module whose loading is not complete takes away that module only.
  lemma EmbryoGone(g: Graph, m: Id)
    requires Sound(g) && m in g.dep && m !in g.loaded
    ensures g.host[m] == [] && Dependents(g.dep, m) == {m}
    ensures Remove(g, {m}).dep == g.dep - {m} && Remove(g, {m}).loaded == g.loaded
  {
    EmbryoHasNoHosts(g, m);
    RemoveNothing(g);
    DependsOnSelf(g.dep, m);
    AllGone(g, {}, m);
    WithoutNone(g.loaded, {m});
    assert Remove(g, {m}).dep == g.dep - {m};
  }
}
