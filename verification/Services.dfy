/** Dependency-ordered start-up of services. */
module Services {
  import opened Wrappers

  /** A service as declared by its module: `init` is the handler, absent when the pointer is NULL. */
  datatype Declaration<H> = Declaration(name: string, dependencies: seq<string>, init: Option<H>)

  /** A service as stored in the load table; repeated dependency names collapse. */
  datatype Stored<H> = Stored(dependencies: set<string>, init: H)

  datatype Call<H> = Call(name: string, init: H)

  ghost function Names<H>(calls: seq<Call<H>>): set<string> {
    set c | c in calls :: c.name
  }

  /** No service is started twice. */
  ghost predicate OnceEach<H>(calls: seq<Call<H>>) {
    forall i, j :: 0 <= i < j < |calls| ==> calls[i].name != calls[j].name
  }

  /** Every call runs the accepted service's own handler, after all the services it depends on. */
  ghost predicate InOrder<H>(calls: seq<Call<H>>, accepted: map<string, Stored<H>>) {
    forall i :: 0 <= i < |calls| ==>
      && calls[i].name in accepted
      && calls[i].init == accepted[calls[i].name].init
      && accepted[calls[i].name].dependencies <= Names(calls[..i])
  }

  /** Every dependency of an accepted service was accepted before it. */
  ghost predicate Ranked<H>(accepted: map<string, Stored<H>>, rank: map<string, nat>) {
    && rank.Keys == accepted.Keys
    && (forall n, d :: n in accepted && d in accepted[n].dependencies ==> d in rank && rank[d] < rank[n])
  }

  lemma RankOfDependencies<H>(accepted: map<string, Stored<H>>, rank: map<string, nat>, n: string)
    requires Ranked(accepted, rank) && n in accepted
    ensures forall d :: d in accepted[n].dependencies ==> d in rank && rank[d] < rank[n]
  {
  }

  /** What `rpc_service_add` accepts; a name already present is skipped whatever it declares. */
  ghost predicate Acceptable<H>(present: set<string>, d: Declaration<H>) {
    d.name in present || (d.init.Some? && forall n :: n in d.dependencies ==> n in present)
  }

  ghost function StoredOf<H>(d: Declaration<H>): Stored<H>
    requires d.init.Some?
  {
    Stored((set n | n in d.dependencies), d.init.value)
  }

  /** The table after declaring `services` in order, the first declaration of each name counting. */
  ghost function Declared<H>(table: map<string, Stored<H>>, services: seq<Declaration<H>>): map<string, Stored<H>> {
    if services == [] then table
    else
      var d, before := services[|services| - 1], Declared(table, services[..|services| - 1]);
      if d.name in before || d.init == None then before else before[d.name := StoredOf(d)]
  }

  /** Each service is acceptable when its turn comes. */
  ghost predicate AllAcceptable<H>(table: map<string, Stored<H>>, services: seq<Declaration<H>>) {
    forall i :: 0 <= i < |services| ==> Acceptable(Declared(table, services[..i]).Keys, services[i])
  }

  lemma AllAcceptableBefore<H>(table: map<string, Stored<H>>, services: seq<Declaration<H>>, n: nat)
    requires AllAcceptable(table, services) && n < |services|
    ensures AllAcceptable(table, services[..n])
    ensures Acceptable(Declared(table, services[..n]).Keys, services[n])
  {
    hide Acceptable, Declared;
    forall i | 0 <= i < n
      ensures Acceptable(Declared(table, services[..n][..i]).Keys, services[..n][i])
    {
      assert services[..n][..i] == services[..i];
    }
  }

  lemma DeclaredNone<H>(table: map<string, Stored<H>>)
    ensures Declared(table, []) == table
  {
  }

  lemma DeclaredNext<H>(table: map<string, Stored<H>>, services: seq<Declaration<H>>, n: nat)
    requires n < |services|
    ensures var d, before := services[n], Declared(table, services[..n]);
            Declared(table, services[..n + 1]) ==
              if d.name in before || d.init == None then before else before[d.name := StoredOf(d)]
  {
    assert services[..n + 1][..n] == services[..n];
  }

  lemma {:induction false} DeclaredNames<H>(table: map<string, Stored<H>>, services: seq<Declaration<H>>)
    requires AllAcceptable(table, services)
    ensures Declared(table, services).Keys == table.Keys + set d | d in services :: d.name
  {
    hide AllAcceptable;
    if services != [] {
      var n := |services| - 1;
      AllAcceptableBefore(table, services, n);
      DeclaredNames(table, services[..n]);
      assert services == services[..n] + [services[n]];
    }
  }

  // ---------- the outcome in terms of the declarations ----------

  /** The `i`-th declaration is the first of its name. */
  ghost predicate FirstOf<H>(services: seq<Declaration<H>>, i: nat) {
    i < |services| && forall j :: 0 <= j < i ==> services[j].name != services[i].name
  }

  ghost predicate NamedBefore<H>(services: seq<Declaration<H>>, i: nat, n: string)
    requires i <= |services|
  {
    exists j :: 0 <= j < i && services[j].name == n
  }

  ghost predicate CalledBefore<H>(calls: seq<Call<H>>, c: nat, n: string)
    requires c <= |calls|
  {
    exists b :: 0 <= b < c && calls[b].name == n
  }

  /** The table stores the first declaration of each new name: its handler and all its dependencies. */
  lemma {:induction false} DeclaredFirst<H>(table: map<string, Stored<H>>, services: seq<Declaration<H>>, i: nat)
    requires AllAcceptable(table, services) && FirstOf(services, i) && services[i].name !in table
    ensures var d, after := services[i], Declared(table, services);
            && d.init.Some? && d.name in after && after[d.name].init == d.init.value
            && forall n :: n in after[d.name].dependencies <==> n in d.dependencies
  {
    hide AllAcceptable, Acceptable;
    var n := |services| - 1;
    AllAcceptableBefore(table, services, n);
    DeclaredNames(table, services[..n]);
    if i == n {
      FirstIsNew(services, i, Declared(table, services[..n]).Keys, table.Keys);
      AcceptedHasInit(Declared(table, services[..n]).Keys, services[n]);
    } else {
      DeclaredFirst(table, services[..n], i);
    }
  }

  lemma FirstIsNew<H>(services: seq<Declaration<H>>, i: nat, present: set<string>, given: set<string>)
    requires FirstOf(services, i) && services[i].name !in given
    requires present == given + set d | d in services[..i] :: d.name
    ensures services[i].name !in present
  {
  }

  /** What is accepted, in terms of the list alone: a name declared before, or a handler and dependencies
      all declared before. */
  ghost predicate Accepted<H>(services: seq<Declaration<H>>, i: nat)
    requires i < |services|
  {
    || NamedBefore(services, i, services[i].name)
    || (services[i].init.Some? && forall n :: n in services[i].dependencies ==> NamedBefore(services, i, n))
  }

  lemma {:induction false} AcceptedIff<H>(services: seq<Declaration<H>>)
    ensures AllAcceptable(map[], services) <==> forall i: nat :: i < |services| ==> Accepted(services, i)
  {
    hide Declared;
    if services != [] {
      var n := |services| - 1;
      var before := services[..n];
      AcceptedIff(before);
      assert forall i: nat :: i < n ==> (Accepted(before, i) <==> Accepted(services, i)) by {
        AcceptedInPrefix(services, n);
      }
      if AllAcceptable(map[], before) {
        DeclaredNames(map[], before);
        LastAccepted(services, Declared(map[], before).Keys);
        AllAcceptableNext(map[], services, n);
      } else if AllAcceptable(map[], services) {
        AllAcceptableBefore(map[], services, n);
      }
    }
  }

  lemma AcceptedInPrefix<H>(services: seq<Declaration<H>>, n: nat)
    requires n <= |services|
    ensures forall i: nat :: i < n ==> (Accepted(services[..n], i) <==> Accepted(services, i))
  {
    assert forall i: nat, m :: i < n ==> (NamedBefore(services[..n], i, m) <==> NamedBefore(services, i, m));
  }

  lemma LastAccepted<H>(services: seq<Declaration<H>>, present: set<string>)
    requires services != [] && present == set d | d in services[..|services| - 1] :: d.name
    ensures Acceptable(present, services[|services| - 1]) <==> Accepted(services, |services| - 1)
  {
    var n := |services| - 1;
    forall m
      ensures m in present <==> NamedBefore(services, n, m)
    {
      if NamedBefore(services, n, m) {
        var j :| 0 <= j < n && services[j].name == m;
        assert services[..n][j] in services[..n];
      }
    }
  }

  lemma AllAcceptableNext<H>(table: map<string, Stored<H>>, services: seq<Declaration<H>>, n: nat)
    requires n + 1 == |services| && AllAcceptable(table, services[..n])
    ensures AllAcceptable(table, services) <==> Acceptable(Declared(table, services[..n]).Keys, services[n])
  {
    hide Acceptable, Declared;
    forall i | 0 <= i < n
      ensures Acceptable(Declared(table, services[..i]).Keys, services[i])
    {
      assert services[..n][..i] == services[..i] && services[..n][i] == services[i];
    }
  }

  lemma AcceptedHasInit<H>(present: set<string>, d: Declaration<H>)
    requires Acceptable(present, d)
    ensures d.name !in present ==> d.init.Some?
  {
  }

  /** The first declaration of `a` names `b`. */
  ghost predicate DependsOn<H>(services: seq<Declaration<H>>, a: string, b: string) {
    exists i: nat :: FirstOf(services, i) && services[i].name == a && b in services[i].dependencies
  }

  /** A chain of declarations leads from `a` to `b`. */
  ghost predicate LeadsTo<H>(services: seq<Declaration<H>>, a: string, b: string) {
    exists p: seq<string> ::
      |p| >= 2 && p[0] == a && p[|p| - 1] == b && forall i :: 0 <= i < |p| - 1 ==> DependsOn(services, p[i], p[i + 1])
  }

  lemma {:induction false} FirstExists<H>(services: seq<Declaration<H>>, j: nat) returns (i: nat)
    requires j < |services|
    ensures i <= j && FirstOf(services, i) && services[i].name == services[j].name
  {
    if FirstOf(services, j) {
      i := j;
    } else {
      var k :| 0 <= k < j && services[k].name == services[j].name;
      i := FirstExists(services, k);
    }
  }

  lemma DependsIff<H>(services: seq<Declaration<H>>, a: string, b: string)
    requires AllAcceptable(map[], services)
    ensures DependsOn(services, a, b) <==>
              (a in Declared(map[], services) && b in Declared(map[], services)[a].dependencies)
  {
    hide AllAcceptable, Declared;
    var table := Declared(map[], services);
    if DependsOn(services, a, b) {
      var i: nat :| FirstOf(services, i) && services[i].name == a && b in services[i].dependencies;
      DeclaredFirst(map[], services, i);
    }
    if a in table && b in table[a].dependencies {
      DeclaredNames(map[], services);
      var j :| 0 <= j < |services| && services[j].name == a;
      var i := FirstExists(services, j);
      DeclaredFirst(map[], services, i);
    }
  }

  lemma LeadsIff<H>(services: seq<Declaration<H>>, a: string, b: string)
    requires AllAcceptable(map[], services)
    ensures LeadsTo(services, a, b) <==> Needs(Declared(map[], services), a, b)
  {
    hide AllAcceptable, Declared, DependsOn;
    var table := Declared(map[], services);
    forall x, y
      ensures DependsOn(services, x, y) <==> x in table && y in table[x].dependencies
    {
      DependsIff(services, x, y);
    }
    if LeadsTo(services, a, b) {
      var p: seq<string> :| |p| >= 2 && p[0] == a && p[|p| - 1] == b
                            && forall i :: 0 <= i < |p| - 1 ==> DependsOn(services, p[i], p[i + 1]);
      forall i | 0 <= i < |p| - 1
        ensures p[i] in table && p[i + 1] in table[p[i]].dependencies
      {
        assert DependsOn(services, p[i], p[i + 1]);
      }
      assert Chain(table, p);
    }
    if Needs(table, a, b) {
      var p :| Chain(table, p) && p[0] == a && p[|p| - 1] == b;
      assert forall i :: 0 <= i < |p| - 1 ==> DependsOn(services, p[i], p[i + 1]);
    }
  }

  lemma SafeIff<H>(services: seq<Declaration<H>>, keys: seq<string>)
    requires AllAcceptable(map[], services)
    ensures SafeOrder(Declared(map[], services), keys) <==>
              forall i, j :: 0 <= i < j < |keys| ==> !LeadsTo(services, keys[i], keys[j])
  {
    hide AllAcceptable, Declared, LeadsTo, Needs;
    forall i, j | 0 <= i < j < |keys|
      ensures LeadsTo(services, keys[i], keys[j]) <==> Needs(Declared(map[], services), keys[i], keys[j])
    {
      LeadsIff(services, keys[i], keys[j]);
    }
  }

  /** A service called from the table had its own handler run, after those of all it depends on. */
  lemma CallOf<H>(calls: seq<Call<H>>, accepted: map<string, Stored<H>>, name: string) returns (c: nat)
    requires InOrder(calls, accepted) && name in Names(calls)
    ensures c < |calls| && name in accepted && calls[c] == Call(name, accepted[name].init)
    ensures forall n :: n in accepted[name].dependencies ==> CalledBefore(calls, c, n)
  {
    c :| 0 <= c < |calls| && calls[c].name == name;
    forall n | n in accepted[name].dependencies
      ensures CalledBefore(calls, c, n)
    {
      assert n in Names(calls[..c]);
      var b :| 0 <= b < c && calls[..c][b].name == n;
      assert calls[b].name == n;
    }
  }

  /** Call number `c` runs the handler of declaration `d`, after the services that `d` depends on. */
  ghost predicate Runs<H>(calls: seq<Call<H>>, c: nat, d: Declaration<H>) {
    && c < |calls| && d.init.Some? && calls[c] == Call(d.name, d.init.value)
    && forall n :: n in d.dependencies ==> CalledBefore(calls, c, n)
  }

  lemma DeclaredRuns<H>(services: seq<Declaration<H>>, calls: seq<Call<H>>, i: nat) returns (c: nat)
    requires AllAcceptable(map[], services) && InOrder(calls, Declared(map[], services))
    requires Names(calls) == (set d | d in services :: d.name) && i < |services| && FirstOf(services, i)
    ensures Runs(calls, c, services[i])
  {
    hide AllAcceptable, InOrder, Declared, FirstOf, CalledBefore, Names;
    assert services[i] in services;
    DeclaredFirst(map[], services, i);
    c := CallOf(calls, Declared(map[], services), services[i].name);
  }

  lemma CallAppended<H>(calls: seq<Call<H>>, accepted: map<string, Stored<H>>, c: Call<H>)
    requires OnceEach(calls) && InOrder(calls, accepted)
    requires c.name !in Names(calls) && c.name in accepted
    requires c.init == accepted[c.name].init && accepted[c.name].dependencies <= Names(calls)
    ensures OnceEach(calls + [c]) && InOrder(calls + [c], accepted)
    ensures Names(calls + [c]) == Names(calls) + {c.name}
  {
    hide Names;
    NamesAppended(calls, c);
    var calls' := calls + [c];
    forall i | 0 <= i < |calls'|
      ensures && calls'[i].name in accepted && calls'[i].init == accepted[calls'[i].name].init
              && accepted[calls'[i].name].dependencies <= Names(calls'[..i])
    {
      assert calls'[..i] == calls[..i];
      assert calls[..|calls|] == calls;
    }
    forall i | 0 <= i < |calls|
      ensures calls[i].name != c.name
    {
      CalledName(calls, i);
    }
  }

  lemma NamesAppended<H>(calls: seq<Call<H>>, c: Call<H>)
    ensures Names(calls + [c]) == Names(calls) + {c.name}
  {
    assert forall x :: x in calls + [c] <==> x in calls || x == c;
  }

  // ---------- transitive dependencies ----------

  /** Each name in the chain depends directly on the next. */
  ghost predicate Chain<H>(table: map<string, Stored<H>>, p: seq<string>) {
    |p| >= 2 && forall i :: 0 <= i < |p| - 1 ==> p[i] in table && p[i + 1] in table[p[i]].dependencies
  }

  /** Service `a` depends on `b`, directly or through others. */
  ghost predicate Needs<H>(table: map<string, Stored<H>>, a: string, b: string) {
    exists p :: Chain(table, p) && p[0] == a && p[|p| - 1] == b
  }

  lemma NeedsDirectly<H>(table: map<string, Stored<H>>, a: string, b: string)
    requires a in table && b in table[a].dependencies
    ensures Needs(table, a, b)
  {
    assert Chain(table, [a, b]);
  }

  lemma NeedsThrough<H>(table: map<string, Stored<H>>, a: string, d: string, b: string)
    requires a in table && d in table[a].dependencies && Needs(table, d, b)
    ensures Needs(table, a, b)
  {
    var p :| Chain(table, p) && p[0] == d && p[|p| - 1] == b;
    assert Chain(table, [a] + p);
  }

  lemma NeedsFirst<H>(table: map<string, Stored<H>>, a: string, b: string) returns (d: string)
    requires Needs(table, a, b)
    ensures a in table && d in table[a].dependencies && (d == b || Needs(table, d, b))
  {
    var p :| Chain(table, p) && p[0] == a && p[|p| - 1] == b;
    d := p[1];
    if |p| > 2 {
      assert Chain(table, p[1..]);
    }
  }

  lemma {:induction false} ChainStays<H>(table: map<string, Stored<H>>, p: seq<string>, closed: set<string>)
    requires Chain(table, p) && p[0] in closed
    requires forall n :: n in closed && n in table ==> table[n].dependencies <= closed
    ensures p[|p| - 1] in closed
    decreases |p|
  {
    assert p[1] in table[p[0]].dependencies;
    if |p| > 2 {
      ChainStays(table, p[1..], closed);
    }
  }

  /** Dependencies never lead out of a set that contains its own. */
  lemma NeedsStay<H>(table: map<string, Stored<H>>, a: string, b: string, closed: set<string>)
    requires Needs(table, a, b) && a in closed
    requires forall n :: n in closed && n in table ==> table[n].dependencies <= closed
    ensures b in closed
  {
    var p :| Chain(table, p) && p[0] == a && p[|p| - 1] == b;
    ChainStays(table, p, closed);
  }

  /** Services that have been started never lead to one that has not. */
  lemma StartedNeeds<H>(calls: seq<Call<H>>, accepted: map<string, Stored<H>>, a: string, b: string)
    requires InOrder(calls, accepted) && a in Names(calls) && Needs(accepted, a, b)
    ensures b in Names(calls)
  {
    forall n | n in Names(calls)
      ensures n in accepted && accepted[n].dependencies <= Names(calls)
    {
      var i :| 0 <= i < |calls| && calls[i].name == n;
      assert accepted[n].dependencies <= Names(calls[..i]);
    }
    NeedsStay(accepted, a, b, Names(calls));
  }

  // ---------- the order in which a table lists its keys ----------

  /** No key comes after one that needs it. */
  ghost predicate SafeOrder<H>(table: map<string, Stored<H>>, keys: seq<string>) {
    forall i, j :: 0 <= i < j < |keys| ==> !Needs(table, keys[i], keys[j])
  }

  /** Every listing is safe exactly when nothing depends on anything. */
  lemma EveryOrderSafeIff<H>(table: map<string, Stored<H>>, rank: map<string, nat>)
    requires Ranked(table, rank)
    ensures (forall keys :: Enumerates(keys, table.Keys) ==> SafeOrder(table, keys))
              <==> forall n :: n in table ==> table[n].dependencies == {}
  {
    hide Needs;
    if forall n :: n in table ==> table[n].dependencies == {} {
      forall keys, i, j | Enumerates(keys, table.Keys) && 0 <= i < j < |keys|
        ensures !Needs(table, keys[i], keys[j])
      {
        if Needs(table, keys[i], keys[j]) {
          var d := NeedsFirst(table, keys[i], keys[j]);
        }
      }
    } else {
      var n :| n in table && table[n].dependencies != {};
      var d :| d in table[n].dependencies;
      var rest := Listing(table.Keys - {n, d});
      var keys := [n, d] + rest;
      NeedsDirectly(table, n, d);
      assert forall k :: k in keys <==> k == n || k == d || k in rest;
      assert Enumerates(keys, table.Keys);
      assert keys[0] == n && keys[1] == d;
      assert !SafeOrder(table, keys);
    }
  }

  /** The services `rpc_init` declares. */
  function ProgramServices<H>(objectInit: H, serverInit: H): seq<Declaration<H>> {
    [Declaration("rpc_object", [], Some(objectInit)), Declaration("rpc_server", ["rpc_object"], Some(serverInit))]
  }

  lemma ProgramDeclared<H>(objectInit: H, serverInit: H)
    ensures "rpc_object" != "rpc_server"
    ensures Declared(map[], ProgramServices(objectInit, serverInit)) ==
              map["rpc_object" := Stored({}, objectInit), "rpc_server" := Stored({"rpc_object"}, serverInit)]
    ensures AllAcceptable(map[], ProgramServices(objectInit, serverInit))
  {
    assert "rpc_object"[4] != "rpc_server"[4];
    var services := ProgramServices(objectInit, serverInit);
    DeclaredNone<H>(map[]);
    assert services[..0] == [] && services[..2] == services;
    DeclaredNext(map[], services, 0);
    DeclaredNext(map[], services, 1);
    assert (set n | n in services[0].dependencies) == {} && (set n | n in services[1].dependencies) == {"rpc_object"};
    assert StoredOf(services[0]) == Stored({}, objectInit) && StoredOf(services[1]) == Stored({"rpc_object"}, serverInit);
    assert AllAcceptable(map[], services);
  }

  /** In the program's own table, listed with rpc_server first, a freed name is read. */
  lemma ProgramOrders<H>(objectInit: H, serverInit: H)
    ensures var table := Declared(map[], ProgramServices(objectInit, serverInit));
            && Enumerates(["rpc_server", "rpc_object"], table.Keys) && !SafeOrder(table, ["rpc_server", "rpc_object"])
            && Enumerates(["rpc_object", "rpc_server"], table.Keys) && SafeOrder(table, ["rpc_object", "rpc_server"])
  {
    hide Needs, Declared, ProgramServices;
    ProgramDeclared(objectInit, serverInit);
    var table := Declared(map[], ProgramServices(objectInit, serverInit));
    assert table.Keys == {"rpc_object", "rpc_server"};
    NeedsDirectly(table, "rpc_server", "rpc_object");
    var keys := ["rpc_server", "rpc_object"];
    assert keys[0] == "rpc_server" && keys[1] == "rpc_object";
    if Needs(table, "rpc_object", "rpc_server") {
      var d := NeedsFirst(table, "rpc_object", "rpc_server");
    }
  }

  /** Once rpc_object has been started it can be declared again, now needing rpc_server, which still
      needs it: loading rpc_server would never return. */
  lemma DeclaredAgain<H>(objectInit: H, serverInit: H)
    ensures var table := map["rpc_server" := Stored({"rpc_object"}, serverInit)];
            var again := Declaration("rpc_object", ["rpc_server"], Some(objectInit));
            && Acceptable(table.Keys, again)
            && Needs(table[again.name := StoredOf(again)], "rpc_server", "rpc_server")
  {
    hide Needs;
    ProgramDeclared(objectInit, serverInit);
    var again := Declaration("rpc_object", ["rpc_server"], Some(objectInit));
    assert (set n | n in again.dependencies) == {"rpc_server"};
    var table := map["rpc_server" := Stored({"rpc_object"}, serverInit)][again.name := StoredOf(again)];
    NeedsDirectly(table, "rpc_object", "rpc_server");
    NeedsThrough(table, "rpc_server", "rpc_object", "rpc_server");
  }

  lemma CallsUnaffected<H>(calls: seq<Call<H>>, accepted: map<string, Stored<H>>, name: string, stored: Stored<H>)
    requires InOrder(calls, accepted) && name !in Names(calls)
    ensures InOrder(calls, accepted[name := stored])
  {
    hide Names;
    forall i | 0 <= i < |calls|
      ensures calls[i].name != name
    {
      CalledName(calls, i);
    }
  }

  lemma RankedWith<H>(accepted: map<string, Stored<H>>, rank: map<string, nat>, name: string, stored: Stored<H>)
    requires Ranked(accepted, rank) && name !in accepted && stored.dependencies <= accepted.Keys
    ensures Ranked(accepted[name := stored], rank[name := Above(rank)])
  {
    hide Above;
  }

  lemma CalledName<H>(calls: seq<Call<H>>, i: nat)
    requires i < |calls|
    ensures calls[i].name in Names(calls)
  {
    assert calls[i] in calls;
  }

  class Loader<H> {
    var load: map<string, Stored<H>>
    /** The names whose key strings the load table has freed: the table owns them. */
    var freedNames: set<string>
    /** The calls of init handlers so far, in order. */
    var calls: seq<Call<H>>

    /** Every service ever accepted. */
    ghost var accepted: map<string, Stored<H>>
    /** When each service was accepted: dependencies come earlier. */
    ghost var rank: map<string, nat>

    ghost predicate Valid()
      reads this
    {
      && rank.Keys == accepted.Keys && Ranked(accepted, rank)
      && (forall n :: n in load ==> n in accepted && load[n] == accepted[n])
      && accepted.Keys == load.Keys + Names(calls)
      && load.Keys !! Names(calls)
      && OnceEach(calls) && InOrder(calls, accepted)
      && freedNames == Names(calls)
    }

    constructor ()
      ensures Valid() && load == map[] && calls == [] && accepted == map[]
    {
      load, calls, accepted, rank, freedNames := map[], [], map[], map[], {};
    }

    /** Declares a service. `ok` is false where the source's assertion would abort. Declaring a service
        that has been started already is accepted, but may leave the table with a cycle. */
    method Add(d: Declaration<H>) returns (ok: bool)
      modifies this
      ensures calls == old(calls) && freedNames == old(freedNames)
      ensures old(Valid()) && d.name !in freedNames ==> Valid()
      ensures ok <==> Acceptable(old(load).Keys, d)
      ensures load == if ok && d.name !in old(load) then old(load)[d.name := StoredOf(d)] else old(load)
      ensures ok && d.name !in old(load) ==>
                && d.init.Some? && d.name in load && load[d.name].init == d.init.value
                && forall n :: n in load[d.name].dependencies <==> n in d.dependencies
    {
      if d.name !in load {
        if d.init == None {
          return false;
        }
        var dependencies := {};
        for i := 0 to |d.dependencies|
          invariant dependencies == set n | n in d.dependencies[..i]
          invariant forall n :: n in dependencies ==> n in load
        {
          assert d.dependencies[..i + 1] == d.dependencies[..i] + [d.dependencies[i]];
          if d.dependencies[i] !in load {
            return false;
          }
          dependencies := dependencies + {d.dependencies[i]};
        }
        assert d.dependencies[..|d.dependencies|] == d.dependencies;
        Store(d.name, Stored(dependencies, d.init.value));
      }
      return true;
    }

    /** Puts a service whose dependencies are present into the table. */
    method Store(name: string, stored: Stored<H>)
      requires name !in load && stored.dependencies <= load.Keys
      modifies this
      ensures load == old(load)[name := stored] && calls == old(calls) && freedNames == old(freedNames)
      ensures old(Valid()) && name !in freedNames ==> Valid()
    {
      hide OnceEach, Names, InOrder, Ranked, Above;
      if Valid() && name !in freedNames {
        CallsUnaffected(calls, accepted, name, stored);
        RankedWith(accepted, rank, name, stored);
      }
      load := load[name := stored];
      accepted := accepted[name := stored];
      rank := rank[name := Above(rank)];
    }

    /** Declares services in order, up to one the source would abort on. */
    method AddPacket(services: seq<Declaration<H>>) returns (ok: bool)
      modifies this
      ensures calls == old(calls) && freedNames == old(freedNames)
      ensures old(Valid()) && (forall d :: d in services ==> d.name !in freedNames) ==> Valid()
      ensures ok <==> AllAcceptable(old(load), services)
      ensures ok ==> load == Declared(old(load), services)
      ensures ok ==> forall i: nat :: FirstOf(services, i) && services[i].name !in old(load) ==>
                && services[i].init.Some? && services[i].name in load
                && load[services[i].name].init == services[i].init.value
                && forall n :: n in load[services[i].name].dependencies <==> n in services[i].dependencies
    {
      hide Valid, Acceptable, Declared;
      DeclaredNone(load);
      var i := 0;
      while i < |services|
        invariant 0 <= i <= |services|
        invariant calls == old(calls) && freedNames == old(freedNames)
        invariant old(Valid()) && (forall d :: d in services ==> d.name !in freedNames) ==> Valid()
        invariant services[..0] == [] && load == Declared(old(load), services[..i])
        invariant forall j :: 0 <= j < i ==> Acceptable(Declared(old(load), services[..j]).Keys, services[j])
      {
        DeclaredNext(old(load), services, i);
        assert services[i] in services;
        ok := Add(services[i]);
        if !ok {
          return;
        }
        AcceptedHasInit(Declared(old(load), services[..i]).Keys, services[i]);
        i := i + 1;
      }
      assert services[..|services|] == services;
      forall i: nat | FirstOf(services, i) && services[i].name !in old(load)
        ensures && services[i].init.Some? && services[i].name in load
                && load[services[i].name].init == services[i].init.value
                && forall n :: n in load[services[i].name].dependencies <==> n in services[i].dependencies
      {
        DeclaredFirst(old(load), services, i);
      }
      ok := true;
    }

    /** Starts one service after its dependencies, which it starts first in any order. What leaves the
        table, its key string freed, is the service and everything it needs. */
    method Load(name: string)
      requires Valid()
      modifies this`load, this`calls, this`freedNames
      ensures Valid() && old(calls) <= calls
      ensures name !in old(load) ==> load == old(load)
      ensures forall n :: n in load ==> n in old(load)
      ensures forall n :: n in old(load) && n !in load ==> rank[n] <= rank[name]
      ensures name in old(load) ==>
                forall n :: n in load <==> n in old(load) && n != name && !Needs(accepted, name, n)
      decreases if name in load then rank[name] + 1 else 0
    {
      hide OnceEach, InOrder, Names, Ranked, Needs, NeededBy;
      if name in load {
        var service := load[name];
        RankOfDependencies(accepted, rank, name);
        var keys := AnyOrder(service.dependencies);
        NeededByNone(accepted, keys);
        var i := 0;
        while i < |keys|
          invariant 0 <= i <= |keys|
          invariant Valid() && old(calls) <= calls
          invariant forall n :: n in load ==> n in old(load)
          invariant forall n :: n in old(load) && n !in load ==> rank[n] < rank[name]
          invariant forall n :: n in load <==> n in old(load) && !NeededBy(accepted, keys[..i], n)
        {
          assert keys[i] in service.dependencies;
          NeededByOneMore(accepted, keys, i);
          if keys[i] !in load {
            StartedStay(keys[i]);
          }
          Load(keys[i]);
          i := i + 1;
        }
        assert keys[..i] == keys;
        NeededByDependencies(accepted, name, keys);
        ListedNeeded(accepted, keys);
        StartOne(name);
      }
    }

    /** Runs the handler of a service whose dependencies have been started and removes the service. */
    method StartOne(name: string)
      requires Valid() && name in load && forall d :: d in accepted[name].dependencies ==> d !in load
      modifies this`load, this`calls, this`freedNames
      ensures Valid() && load == old(load) - {name} && calls == old(calls) + [Call(name, old(load)[name].init)]
    {
      hide OnceEach, InOrder, Names, Ranked;
      RankOfDependencies(accepted, rank, name);
      CallAppended(calls, accepted, Call(name, load[name].init));
      calls := calls + [Call(name, load[name].init)];
      load := load - {name};
      freedNames := freedNames + {name};
    }

    lemma StartedStay(a: string)
      requires Valid() && a in accepted && a !in load
      ensures forall n :: n in load ==> n != a && !Needs(accepted, a, n)
    {
      hide OnceEach, Ranked, Needs;
      forall n | n in load
        ensures !Needs(accepted, a, n)
      {
        if Needs(accepted, a, n) {
          StartedNeeds(calls, accepted, a, n);
        }
      }
    }

    /** Starts everything in the table, in the order `keys` in which the table lists its own key
        strings. `defined` is false where the source reads a key string after it was freed. */
    method LoadAll(keys: seq<string>) returns (defined: bool)
      requires Valid() && Enumerates(keys, load.Keys)
      modifies this`load, this`calls, this`freedNames
      ensures Valid() && old(calls) <= calls
      ensures defined <==> SafeOrder(accepted, keys)
      ensures defined ==> load == map[]
      ensures defined ==> OnceEach(calls) && InOrder(calls, accepted)
      ensures defined ==> Names(calls) == old(load).Keys + old(Names(calls))
      ensures defined ==> forall name :: name in old(load) ==>
                exists c: nat :: && c < |calls| && calls[c] == Call(name, old(load)[name].init)
                                 && forall n :: n in old(load)[name].dependencies ==> CalledBefore(calls, c, n)
    {
      hide Valid, OnceEach, InOrder, Names, Ranked, Needs, NeededBy, SafeOrder;
      CallsAndTable();
      NeededByNone(accepted, keys);
      NoOrder(accepted, keys);
      var i := 0;
      while i < |keys|
        invariant 0 <= i <= |keys|
        invariant Valid() && old(calls) <= calls
        invariant forall n :: n in load <==> n in old(load) && !NeededBy(accepted, keys[..i], n)
        invariant SafeOrder(accepted, keys[..i])
      {
        CallsAndTable();
        assert keys[i] in keys;
        SafeOneMore(accepted, keys, i);
        if keys[i] in freedNames {
          UnsafePrefix(accepted, keys, i + 1);
          return false;
        }
        NeededByOneMore(accepted, keys, i);
        Load(keys[i]);
        i := i + 1;
      }
      assert keys[..i] == keys;
      ListedNeeded(accepted, keys);
      assert load.Keys == {};
      CallsAndTable();
      forall name | name in old(load)
        ensures exists c: nat :: && c < |calls| && calls[c] == Call(name, old(load)[name].init)
                                 && forall n :: n in old(load)[name].dependencies ==> CalledBefore(calls, c, n)
      {
        var c := CallOf(calls, accepted, name);
      }
      defined := true;
    }

    lemma CallsAndTable()
      requires Valid()
      ensures accepted.Keys == load.Keys + Names(calls) && load.Keys !! Names(calls) && freedNames == Names(calls)
      ensures OnceEach(calls) && InOrder(calls, accepted)
      ensures forall n :: n in load ==> n in accepted && load[n] == accepted[n]
    {
    }
  }

  /** One of the keys is `n` or needs it. */
  ghost predicate NeededBy<H>(table: map<string, Stored<H>>, keys: seq<string>, n: string) {
    exists i :: 0 <= i < |keys| && (keys[i] == n || Needs(table, keys[i], n))
  }

  lemma NeededByOneMore<H>(table: map<string, Stored<H>>, keys: seq<string>, i: nat)
    requires i < |keys|
    ensures forall n :: NeededBy(table, keys[..i + 1], n) <==> NeededBy(table, keys[..i], n) || keys[i] == n || Needs(table, keys[i], n)
  {
    hide Needs;
    assert keys[..i + 1][..i] == keys[..i];
    forall n
      ensures NeededBy(table, keys[..i + 1], n) <==> NeededBy(table, keys[..i], n) || keys[i] == n || Needs(table, keys[i], n)
    {
      if NeededBy(table, keys[..i], n) {
        var j :| 0 <= j < i && (keys[..i][j] == n || Needs(table, keys[..i][j], n));
        assert keys[..i + 1][j] == keys[..i][j];
      }
      assert keys[..i + 1][i] == keys[i];
    }
  }

  /** What the dependencies lead to is what the service needs. */
  lemma NeededByDependencies<H>(table: map<string, Stored<H>>, name: string, keys: seq<string>)
    requires name in table && forall d :: d in keys <==> d in table[name].dependencies
    ensures forall n :: NeededBy(table, keys, n) <==> Needs(table, name, n)
  {
    hide Needs;
    forall n
      ensures NeededBy(table, keys, n) <==> Needs(table, name, n)
    {
      if NeededBy(table, keys, n) {
        var i :| 0 <= i < |keys| && (keys[i] == n || Needs(table, keys[i], n));
        assert keys[i] in keys;
        if keys[i] == n {
          NeedsDirectly(table, name, n);
        } else {
          NeedsThrough(table, name, keys[i], n);
        }
      }
      if Needs(table, name, n) {
        var d := NeedsFirst(table, name, n);
        var i :| 0 <= i < |keys| && keys[i] == d;
      }
    }
  }

  /** Whether the next key is still safe to read. */
  lemma SafeOneMore<H>(table: map<string, Stored<H>>, keys: seq<string>, i: nat)
    requires i < |keys| && SafeOrder(table, keys[..i]) && forall j :: 0 <= j < i ==> keys[j] != keys[i]
    ensures SafeOrder(table, keys[..i + 1]) <==> !NeededBy(table, keys[..i], keys[i])
  {
    hide Needs;
    if NeededBy(table, keys[..i], keys[i]) {
      var j :| 0 <= j < i && (keys[..i][j] == keys[i] || Needs(table, keys[..i][j], keys[i]));
      assert keys[..i + 1][j] == keys[j] && keys[..i + 1][i] == keys[i];
    } else {
      var p := keys[..i + 1];
      forall j, k | 0 <= j < k < |p|
        ensures !Needs(table, p[j], p[k])
      {
        assert keys[..i][j] == p[j];
        if k < i {
          assert keys[..i][k] == p[k];
        }
      }
    }
  }

  lemma UnsafePrefix<H>(table: map<string, Stored<H>>, keys: seq<string>, n: nat)
    requires n <= |keys| && !SafeOrder(table, keys[..n])
    ensures !SafeOrder(table, keys)
  {
  }

  lemma NoOrder<H>(table: map<string, Stored<H>>, keys: seq<string>)
    ensures SafeOrder(table, keys[..0])
  {
  }

  lemma ListedNeeded<H>(table: map<string, Stored<H>>, keys: seq<string>)
    ensures forall n :: n in keys ==> NeededBy(table, keys, n)
  {
    hide Needs;
  }

  lemma NeededByNone<H>(table: map<string, Stored<H>>, keys: seq<string>)
    ensures forall n :: !NeededBy(table, keys[..0], n)
  {
  }

  /** A rank above all those given. */
  ghost function Above(rank: map<string, nat>): (r: nat)
    ensures forall n :: n in rank ==> rank[n] < r
  {
    if rank == map[] then 0
    else
      var n :| n in rank;
      var r := Above(rank - {n});
      assert forall m :: m in rank && m != n ==> m in rank - {n} && (rank - {n})[m] == rank[m];
      if r <= rank[n] then rank[n] + 1 else r
  }

  /** Declaring a list of services and loading them in the order `keys` in which the table happens to
      list them: unless a later key is needed by an earlier one, this runs the handler of each
      distinct name exactly once, after the handlers of everything it depends on. */
  method Start<H>(services: seq<Declaration<H>>) returns (ok: bool, keys: seq<string>, defined: bool, calls: seq<Call<H>>)
    ensures ok <==> AllAcceptable(map[], services)
    ensures ok <==> forall i: nat :: i < |services| ==> Accepted(services, i)
    ensures ok ==> Enumerates(keys, set d | d in services :: d.name)
    ensures ok ==> (defined <==> forall i, j :: 0 <= i < j < |keys| ==> !LeadsTo(services, keys[i], keys[j]))
    ensures ok && defined ==> forall i: nat :: i < |services| && FirstOf(services, i) ==> exists c :: Runs(calls, c, services[i])
    ensures ok && defined ==> OnceEach(calls) && InOrder(calls, Declared(map[], services))
    ensures ok && defined ==> Names(calls) == set d | d in services :: d.name
  {
    hide AllAcceptable, OnceEach, InOrder, Declared, SafeOrder, Enumerates, Accepted, FirstOf, Runs, LeadsTo, CalledBefore,
      Names;
    var loader := new Loader<H>();
    keys, defined := [], false;
    ok := loader.AddPacket(services);
    AcceptedIff(services);
    if ok {
      DeclaredNames(map[], services);
      NothingCalled<H>();
      assert loader.accepted == loader.load;
      assert loader.load.Keys == set d | d in services :: d.name;
      keys := AnyOrder(loader.load.Keys);
      SafeIff(services, keys);
      defined := loader.LoadAll(keys);
      if defined {
        forall i: nat | i < |services| && FirstOf(services, i)
          ensures exists c :: Runs(loader.calls, c, services[i])
        {
          var c := DeclaredRuns(services, loader.calls, i);
        }
      }
    }
    calls := loader.calls;
  }

  lemma NothingCalled<H>()
    ensures Names<H>([]) == {}
  {
  }
}
