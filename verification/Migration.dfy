/** Moving a cluster's nodes under management: which external members a pass replaces, and how many. */
module Migration {
  import opened Listing
  import opened Topology

  datatype Member = Member(config: string, dnsName: string)

  type Members = map<string, Member>

  datatype ServerClass = ServerClass(name: string, data: bool, size: nat)

  datatype Strategy =
    | NoOrder
    | ByServerClass(classOrder: seq<string>)
    | ByServerGroup(enabled: bool)
    | ByNode(nodeOrder: seq<string>)

  datatype Spec = Spec(maxConcurrent: int, unmanaged: int, strategy: Strategy, classes: seq<ServerClass>)

  // ----- server classes -----

  function ClassOf(cs: seq<ServerClass>, n: string): (r: Option<ServerClass>)
    ensures r.None? <==> forall c | c in cs :: c.name != n
  {
    if cs == [] then None else if cs[0].name == n then Some(cs[0]) else ClassOf(cs[1..], n)
  }

  predicate IsDataNode(x: Spec, m: Member)
  {
    var c := ClassOf(x.classes, m.config);
    c.Some? && c.value.data
  }

  /** A member runs the data service exactly if the class of its name does. */
  lemma DataNodeExactly(x: Spec, m: Member)
    requires forall i, j | 0 <= i < j < |x.classes| :: x.classes[i].name != x.classes[j].name
    ensures IsDataNode(x, m) <==> exists c :: c in x.classes && c.name == m.config && c.data
  {
    var c := ClassOf(x.classes, m.config);
    if c.Some? {
      ClassOfIn(x.classes, m.config);
    }
  }

  lemma {:induction false} ClassOfIn(cs: seq<ServerClass>, n: string)
    requires ClassOf(cs, n).Some?
    ensures ClassOf(cs, n).value in cs && ClassOf(cs, n).value.name == n
  {
    if cs[0].name != n {
      ClassOfIn(cs[1..], n);
    }
  }

  /** Every class that runs the data service adds its size. */
  lemma DataNodesAdded(cs: seq<ServerClass>, c: ServerClass)
    ensures DataNodes([]) == 0 && DataNodes(cs + [c]) == DataNodes(cs) + if c.data then c.size else 0
  {
    assert (cs + [c])[..|cs|] == cs;
  }

  function DataNodes(cs: seq<ServerClass>): nat
  {
    if cs == [] then 0 else DataNodes(cs[..|cs| - 1]) + (if cs[|cs| - 1].data then cs[|cs| - 1].size else 0)
  }

  method GetNumberOfDataServiceNodes(cs: seq<ServerClass>) returns (n: nat)
    ensures n == DataNodes(cs)
  {
    n := 0;
    for i := 0 to |cs|
      invariant n == DataNodes(cs[..i])
    {
      assert cs[..i + 1][..i] == cs[..i];
      if cs[i].data {
        n := n + cs[i].size;
      }
    }
    assert cs[..|cs|] == cs;
  }

  // ----- candidates -----

  /** The order of classes in use: as given, but with missing classes added only if it names fewer than there
      are. */
  function ClassOrder(given: seq<string>, cs: seq<ServerClass>): seq<string>
  {
    if given != [] && |given| >= |cs| then given else given + Missing(given, cs)
  }

  function Missing(given: seq<string>, cs: seq<ServerClass>): (r: seq<string>)
    ensures forall n :: n in r <==> n !in given && exists c :: c in cs && c.name == n
  {
    if cs == [] then []
    else
      var k := |cs| - 1;
      assert cs == cs[..k] + [cs[k]];
      var rest := Missing(given, cs[..k]);
      if cs[k].name in given || cs[k].name in rest then rest else rest + [cs[k].name]
  }

  function GroupOf(group: Option<set<string>>): set<string>
  {
    match group case None => {} case Some(g) => g
  }

  /** Whether the strategy has nobody to offer although there are external members. */
  ghost predicate NobodyOffered(x: Spec, ext: Members, group: set<string>)
  {
    match x.strategy
    case NoOrder => false
    case ByServerClass(given) => forall n | n in ext :: ext[n].config !in ClassOrder(given, x.classes)
    case ByServerGroup(enabled) => enabled && group == {}
    case ByNode(hosts) => x.maxConcurrent <= 0 && hosts != [] && forall n | n in ext :: ext[n].dnsName != hosts[0]
  }

  /** Whether nobody is to be replaced now. */
  ghost predicate NobodyNext(x: Spec, ext: Members, group: set<string>)
  {
    ext == map[] || |ext| <= x.unmanaged || NobodyOffered(x, ext, group)
  }

  /** The class is the first in the order that has any members. */
  ghost predicate FirstClass(order: seq<string>, ext: Members, i: nat)
  {
    i < |order| && (exists n :: n in ext && ext[n].config == order[i]) && forall n | n in ext :: ext[n].config !in order[..i]
  }

  /** The order goes by what is given, and by the order of all classes as far as that names too few. */
  lemma ClassOrderComplete(given: seq<string>, cs: seq<ServerClass>)
    ensures given <= ClassOrder(given, cs)
    ensures |given| < |cs| || given == [] ==> forall c | c in cs :: c.name in ClassOrder(given, cs)
    ensures given != [] && |given| >= |cs| ==> ClassOrder(given, cs) == given
    ensures forall n | n in ClassOrder(given, cs) :: n in given || exists c :: c in cs && c.name == n
  {}

  /** The external members of the first class in order that has any. */
  method GetMigrationCandidatesByServerClass(x: Spec, given: seq<string>, ext: Members) returns (c: set<string>)
    ensures c <= ext.Keys
    ensures c != {} ==> exists i: nat :: FirstClass(ClassOrder(given, x.classes), ext, i) &&
                                    c == set n | n in ext && ext[n].config == ClassOrder(given, x.classes)[i]
    ensures c == {} <==> forall n | n in ext :: ext[n].config !in ClassOrder(given, x.classes)
  {
    var order := ClassOrder(given, x.classes);
    for i := 0 to |order|
      invariant forall n | n in ext :: ext[n].config !in order[..i]
    {
      assert order[..i + 1] == order[..i] + [order[i]];
      c := set n | n in ext && ext[n].config == order[i];
      if |c| > 0 {
        var n :| n in c;
        assert ext[n].config in order && FirstClass(order, ext, i);
        return;
      }
      assert forall n | n in ext && ext[n].config == order[i] :: n in c;
    }
    assert order[..|order|] == order;
    c := {};
  }

  /** The external member of the given address, if there is one. */
  method FindByAddress(ext: Members, host: string) returns (r: Option<string>)
    ensures r.Some? ==> r.value in ext && ext[r.value].dnsName == host
    ensures r.None? ==> forall n | n in ext :: ext[n].dnsName != host
  {
    var rest := ext.Keys;
    while rest != {}
      invariant rest <= ext.Keys && forall n | n in ext && n !in rest :: ext[n].dnsName != host
    {
      var n :| n in rest;
      rest := rest - {n};
      if ext[n].dnsName == host {
        return Some(n);
      }
    }
    return None;
  }

  /** Some member goes by the address. */
  ghost predicate Represented(ms: Members, names: set<string>, host: string)
  {
    exists n :: n in names && n in ms && ms[n].dnsName == host
  }

  /** Nobody is offered before those that come first: some beginning of the nodes named is offered as far as they are
      external, and nobody else unless that is all of them. */
  ghost predicate NamedFirst(hosts: seq<string>, ext: Members, c: set<string>, k: nat)
  {
    k <= |hosts| && (forall h | h in hosts[..k] && Represented(ext, ext.Keys, h) :: Represented(ext, c, h)) &&
    (k < |hosts| ==> forall n | n in c && n in ext :: ext[n].dnsName in hosts[..k])
  }

  /** The nodes named, up to a number. */
  method TakeNamed(hosts: seq<string>, ext: Members, number: int) returns (c: set<string>, full: bool, ghost k: nat)
    ensures c <= ext.Keys && NamedFirst(hosts, ext, c, k)
    ensures full ==> hosts != [] && if number > 0 then |c| == number else |c| <= 1 && (c == {} <==> !Represented(ext, ext.Keys, hosts[0]))
    ensures !full ==> k == |hosts| && if hosts == [] then c == {} else |c| < number
  {
    c, k := {}, 0;
    for i := 0 to |hosts|
      invariant c <= ext.Keys && k == i && (if i == 0 then c == {} else |c| < number)
      invariant NamedFirst(hosts, ext, c, i) && forall n | n in c :: ext[n].dnsName in hosts[..i]
    {
      hide NamedFirst;
      var n := FindByAddress(ext, hosts[i]);
      ghost var was := c;
      if n.Some? {
        c := c + {n.value};
        assert n.value in c;
      }
      NamedNext(hosts, ext, was, c, i);
      k := i + 1;
      if |c| >= number {
        return c, true, k;
      }
    }
    return c, false, k;
  }

  /** More of the members, in the given order of names, up to a number or at least to one. */
  method TakeSorted(some: set<string>, sorted: seq<string>, ext: Members, number: int) returns (c: set<string>)
    requires Lists(sorted, ext.Keys) && some <= ext.Keys && ext != map[] && (some == {} || |some| < number)
    ensures some <= c <= ext.Keys && c != {}
    ensures number > 0 ==> |c| <= number && (|c| == number || c == ext.Keys)
  {
    c := some;
    for i := 0 to |sorted|
      invariant some <= c <= ext.Keys && (c == {} || |c| < number) && (i > 0 ==> c != {})
      invariant forall j | 0 <= j < i :: sorted[j] in c
    {
      assert sorted[i] in sorted;
      if sorted[i] !in c {
        c := c + {sorted[i]};
      }
      if |c| >= number {
        return;
      }
    }
    forall n | n in ext ensures n in c {
      assert n in sorted;
    }
    assert c == ext.Keys;
    var n :| n in ext;
  }

  /** The nodes named first, then the rest in the given order of names. */
  method GetMigrationCandidatesByNode(x: Spec, hosts: seq<string>, ext: Members, sorted: seq<string>, numToMigrate: nat)
    returns (c: set<string>)
    requires ext != map[] && numToMigrate > 0 && Lists(sorted, ext.Keys)
    ensures c <= ext.Keys
    ensures c == {} <==> x.maxConcurrent <= 0 && hosts != [] && forall n | n in ext :: ext[n].dnsName != hosts[0]
    ensures exists k :: NamedFirst(hosts, ext, c, k)
    ensures x.maxConcurrent > 0 ==> |c| <= numToMigrate && |c| <= x.maxConcurrent && (|c| == numToMigrate || |c| == x.maxConcurrent || c == ext.Keys)
  {
    var numCandidates: int := numToMigrate;
    if x.maxConcurrent < numCandidates {
      numCandidates := x.maxConcurrent;
    }
    ghost var k;
    var full;
    c, full, k := TakeNamed(hosts, ext, numCandidates);
    if full {
      return;
    }
    ghost var named := c;
    c := TakeSorted(c, sorted, ext, numCandidates);
    NamedMore(hosts, ext, named, c);
  }

  lemma NamedMore(hosts: seq<string>, ext: Members, was: set<string>, c: set<string>)
    requires NamedFirst(hosts, ext, was, |hosts|) && was <= c
    ensures NamedFirst(hosts, ext, c, |hosts|)
  {
    forall h | h in hosts[..|hosts|] && Represented(ext, ext.Keys, h) ensures Represented(ext, c, h) {
      assert Represented(ext, was, h);
      var n :| n in was && n in ext && ext[n].dnsName == h;
    }
  }

  lemma NamedNext(hosts: seq<string>, ext: Members, was: set<string>, c: set<string>, i: nat)
    requires i < |hosts| && NamedFirst(hosts, ext, was, i) && was <= c <= ext.Keys
    requires forall n | n in was :: ext[n].dnsName in hosts[..i]
    requires forall n | n in c - was :: ext[n].dnsName == hosts[i]
    requires Represented(ext, ext.Keys, hosts[i]) ==> Represented(ext, c, hosts[i])
    ensures NamedFirst(hosts, ext, c, i + 1) && forall n | n in c :: ext[n].dnsName in hosts[..i + 1]
  {
    assert hosts[..i + 1] == hosts[..i] + [hosts[i]];
    forall h | h in hosts[..i] && Represented(ext, ext.Keys, h) ensures Represented(ext, c, h) {
      assert Represented(ext, was, h);
      var n :| n in was && ext[n].dnsName == h;
    }
  }

  /** Takes members from a pool in any order up to a number. */
  method TakeSome(pool: set<string>, limit: nat) returns (c: set<string>)
    ensures c <= pool && |c| == if |pool| < limit then |pool| else limit
  {
    c := {};
    var rest := pool;
    while rest != {}
      invariant rest <= pool && c <= pool && c !! rest && |c| <= limit
      invariant c + rest == pool
    {
      if |c| >= limit {
        break;
      }
      var n :| n in rest;
      rest := rest - {n};
      c := c + {n};
    }
    SubsetSize(c, pool);
  }

  /** Whom the strategy offers: the members of the first class that has any, those of the server group, or the nodes
      named first. */
  ghost predicate Offered(x: Spec, ext: Members, group: set<string>, pool: set<string>)
  {
    pool <= ext.Keys &&
    match x.strategy
    case NoOrder => pool == ext.Keys
    case ByServerGroup(enabled) => pool == if enabled then group else ext.Keys
    case ByServerClass(given) =>
      pool == {} || exists i: nat :: FirstClass(ClassOrder(given, x.classes), ext, i) &&
                                pool == set n | n in ext && ext[n].config == ClassOrder(given, x.classes)[i]
    case ByNode(hosts) => exists k :: NamedFirst(hosts, ext, pool, k)
  }

  /** As many of those the strategy offers as may be replaced. */
  ghost predicate TakenFrom(x: Spec, ext: Members, group: set<string>, pool: set<string>, c: set<string>)
  {
    Offered(x, ext, group, pool) && c <= pool && |c| == if |pool| < |ext| - x.unmanaged then |pool| else |ext| - x.unmanaged
  }

  /** Taken from those the strategy offers. */
  ghost predicate Preferred(x: Spec, ext: Members, group: set<string>, c: set<string>)
  {
    exists pool :: c <= pool && Offered(x, ext, group, pool)
  }

  /** The members that may be replaced now: external ones, as many as are not to stay unmanaged. There are none
      only if there are none to replace, or the strategy offers nobody. The server group lookup may fail. */
  method GetMigrationCandidates(x: Spec, ext: Members, sorted: seq<string>, group: Option<set<string>>)
    returns (c: Option<set<string>>, ghost offered: set<string>)
    requires Lists(sorted, ext.Keys)
    requires group.Some? ==> group.value <= ext.Keys
    ensures c.Some? ==> c.value <= ext.Keys && (c.value != {} ==> |c.value| <= |ext| - x.unmanaged)
    ensures c.Some? ==> (c.value == {} <==> NobodyNext(x, ext, GroupOf(group)))
    ensures c.Some? && c.value != {} ==> TakenFrom(x, ext, GroupOf(group), offered, c.value)
    ensures c.None? <==> group.None? && x.strategy == ByServerGroup(true) && ext != map[] && |ext| > x.unmanaged
  {
    if |ext| == 0 || |ext| <= x.unmanaged {
      return Some({}), {};
    }
    var pool := ext.Keys;
    var numToMigrate := |ext| - x.unmanaged;
    match x.strategy {
      case NoOrder =>
      case ByServerGroup(enabled) =>
        if enabled {
          if group.None? {
            return None, {};
          }
          pool := group.value;
        }
      case ByServerClass(given) =>
        pool := GetMigrationCandidatesByServerClass(x, given, ext);
      case ByNode(hosts) =>
        pool := GetMigrationCandidatesByNode(x, hosts, ext, sorted, numToMigrate);
    }
    assert Offered(x, ext, GroupOf(group), pool);
    var chosen := TakeSome(pool, numToMigrate);
    assert TakenFrom(x, ext, GroupOf(group), pool, chosen);
    return Some(chosen), pool;
  }

  // ----- one pass -----

  function DataNodesIn(x: Spec, ext: Members, s: set<string>): set<string>
  {
    set n | n in s && n in ext && IsDataNode(x, ext[n])
  }

  function Limit(x: Spec): nat
  {
    if x.maxConcurrent <= 0 then 1 else x.maxConcurrent
  }

  /** A choice of members a pass may replace together. */
  ghost predicate Allowed(x: Spec, ext: Members, s: set<string>)
  {
    s <= ext.Keys && |s| <= Limit(x) &&
    (s != {} ==> |s| <= |ext| - x.unmanaged) &&
    (DataNodes(x.classes) > 1 ==> |DataNodesIn(x, ext, s)| < DataNodes(x.classes))
  }

  lemma DataNodesAdd(x: Spec, ext: Members, s: set<string>, n: string)
    requires n in ext && n !in s
    ensures |DataNodesIn(x, ext, s + {n})| == |DataNodesIn(x, ext, s)| + (if IsDataNode(x, ext[n]) then 1 else 0)
    ensures |DataNodesIn(x, ext, s)| <= |s|
  {
    assert DataNodesIn(x, ext, s + {n}) == DataNodesIn(x, ext, s) + (if IsDataNode(x, ext[n]) then {n} else {});
    SubsetSize(DataNodesIn(x, ext, s), s);
  }

  /** Nobody who could be chosen is left out: the limit is reached, or all but one of the data nodes are taken. */
  ghost predicate LeftOut(x: Spec, ext: Members, c: set<string>, n: string)
    requires n in ext
  {
    IsDataNode(x, ext[n]) && DataNodes(x.classes) > 1 && |DataNodesIn(x, ext, c)| == DataNodes(x.classes) - 1
  }

  /** How far choosing has got: those chosen and those still to be looked at. The others have been left out. */
  ghost predicate Choosing(x: Spec, ext: Members, candidates: set<string>, c: set<string>, rest: set<string>, counts: bool, taken: nat)
  {
    c <= candidates && rest <= candidates && c !! rest && |c| <= Limit(x) && |DataNodesIn(x, ext, c)| <= |c| &&
    (counts ==> taken == |DataNodesIn(x, ext, c)| < DataNodes(x.classes)) &&
    forall n | n in candidates && n !in c && n !in rest :: n in ext && IsDataNode(x, ext[n]) && counts && taken == DataNodes(x.classes) - 1
  }

  lemma TakeIn(x: Spec, ext: Members, candidates: set<string>, c: set<string>, rest: set<string>, counts: bool, taken: nat, n: string)
    requires candidates <= ext.Keys && Choosing(x, ext, candidates, c, rest, counts, taken) && n in rest && |c| < Limit(x)
    requires counts && IsDataNode(x, ext[n]) ==> taken < DataNodes(x.classes) - 1
    ensures Choosing(x, ext, candidates, c + {n}, rest - {n}, counts, if counts && IsDataNode(x, ext[n]) then taken + 1 else taken)
  {
    DataNodesAdd(x, ext, c, n);
    SubsetSize(DataNodesIn(x, ext, c + {n}), c + {n});
    hide IsDataNode, DataNodes, Limit, DataNodesIn;
  }

  lemma LeaveOut(x: Spec, ext: Members, candidates: set<string>, c: set<string>, rest: set<string>, taken: nat, n: string)
    requires candidates <= ext.Keys && Choosing(x, ext, candidates, c, rest, true, taken) && n in rest
    requires IsDataNode(x, ext[n]) && taken >= DataNodes(x.classes) - 1
    ensures Choosing(x, ext, candidates, c, rest - {n}, true, taken)
  {
    hide IsDataNode, DataNodes, Limit, DataNodesIn;
  }

  lemma ChoiceMade(x: Spec, ext: Members, candidates: set<string>, c: set<string>, rest: set<string>, taken: nat)
    requires candidates <= ext.Keys && (candidates != {} ==> |candidates| <= |ext| - x.unmanaged)
    requires Choosing(x, ext, candidates, c, rest, DataNodes(x.classes) > 1 && Limit(x) >= DataNodes(x.classes), taken)
    requires rest == {} || |c| >= Limit(x)
    ensures Allowed(x, ext, c) && (c == {} <==> candidates == {})
    ensures |c| == Limit(x) || forall n | n in candidates - c :: LeftOut(x, ext, c, n)
  {
    SubsetSize(c, candidates);
    assert c == {} ==> DataNodesIn(x, ext, c) == {};
    hide IsDataNode, DataNodes, DataNodesIn;
  }

  /** Chooses among the candidates, looking at them in any order. Somebody is chosen if there is anybody, and nobody is
      left out who could come along. */
  method ChooseMembers(x: Spec, ext: Members, candidates: set<string>) returns (c: set<string>)
    requires candidates <= ext.Keys && (candidates != {} ==> |candidates| <= |ext| - x.unmanaged)
    ensures c <= candidates && Allowed(x, ext, c)
    ensures c == {} <==> candidates == {}
    ensures |c| == Limit(x) || forall n | n in candidates - c :: LeftOut(x, ext, c, n)
  {
    var maxNodes := if x.maxConcurrent <= 0 then 1 else x.maxConcurrent;
    var numDataNodes := GetNumberOfDataServiceNodes(x.classes);
    var performDataNodesCheck := numDataNodes > 1 && maxNodes >= numDataNodes;
    var numDataNodeCandidates := 0;
    c := {};
    var rest := candidates;
    assert DataNodesIn(x, ext, c) == {};
    hide IsDataNode, DataNodes, DataNodesIn, Allowed, LeftOut;
    while rest != {}
      invariant Choosing(x, ext, candidates, c, rest, performDataNodesCheck, numDataNodeCandidates)
      invariant |c| < maxNodes
    {
      var n :| n in rest;
      ghost var was, taken := c, numDataNodeCandidates;
      if performDataNodesCheck && IsDataNode(x, ext[n]) {
        if numDataNodeCandidates >= numDataNodes - 1 {
          LeaveOut(x, ext, candidates, c, rest, numDataNodeCandidates, n);
          rest := rest - {n};
          continue;
        }
        numDataNodeCandidates := numDataNodeCandidates + 1;
      }
      TakeIn(x, ext, candidates, was, rest, performDataNodesCheck, taken, n);
      rest := rest - {n};
      c := c + {n};
      if |c| >= maxNodes {
        break;
      }
    }
    ChoiceMade(x, ext, candidates, c, rest, numDataNodeCandidates);
  }

  /** The members that one pass moves if nothing fails: of those offered, as many as may move together. */
  ghost predicate Complete(x: Spec, ext: Members, group: set<string>, pool: set<string>, candidates: set<string>, c: set<string>)
  {
    TakenFrom(x, ext, group, pool, candidates) && c <= candidates <= ext.Keys &&
    (|c| == Limit(x) || forall n | n in candidates - c :: LeftOut(x, ext, c, n))
  }

  /** The member's class is not there any more, or no new pod can be added in its place. */
  predicate CannotMove(x: Spec, ext: Members, adds: string -> bool, n: string)
  {
    n in ext ==> ClassOf(x.classes, ext[n].config).None? || !adds(n)
  }

  /** As many as may move together, of candidates that the strategy offers. */
  ghost predicate FullyMoved(x: Spec, ext: Members, group: set<string>, c: set<string>)
  {
    exists pool, candidates :: Complete(x, ext, group, pool, candidates, c)
  }

  ghost predicate SomeCannotMove(x: Spec, ext: Members, adds: string -> bool)
  {
    exists n :: n in ext && CannotMove(x, ext, adds, n)
  }

  class Machine {
    var external: Members
    var migrated: set<string>
    var needsRebalance: bool
    var ready: bool

    /** Replaces one external member by a new pod of its server class; either the member has gone from the
        external ones or nothing has changed. */
    method MigrateNode(x: Spec, n: string, adds: string -> bool) returns (ok: bool)
      requires n in external
      modifies this`external, this`needsRebalance
      ensures ok ==> external == old(external) - {n} && needsRebalance
      ensures !ok ==> external == old(external) && needsRebalance == old(needsRebalance)
      ensures ok <==> ClassOf(x.classes, old(external)[n].config).Some? && adds(n)
    {
      if ClassOf(x.classes, external[n].config).None? {
        return false;
      }
      if !adds(n) {
        return false;
      }
      external := external - {n};
      needsRebalance := true;
      return true;
    }

    /** Replaces members in any order, up to the first failure. */
    method MigrateAll(x: Spec, chosen: set<string>, adds: string -> bool) returns (ok: bool, ghost done: set<string>)
      requires chosen <= external.Keys
      modifies this
      ensures done <= chosen && external == old(external) - done && migrated == old(migrated) + done
      ensures ok ==> done == chosen
      ensures !ok ==> exists n :: n in chosen && CannotMove(x, old(external), adds, n)
      ensures ready == old(ready)
    {
      done := {};
      var rest := chosen;
      while rest != {}
        invariant rest <= chosen && done == chosen - rest
        invariant external == old(external) - done && migrated == old(migrated) + done && ready == old(ready)
      {
        var n :| n in rest;
        ok := MigrateNode(x, n, adds);
        if !ok {
          return;
        }
        rest := rest - {n};
        migrated := migrated + {n};
        done := done + {n};
      }
      return true, done;
    }

    /** Moves as many of the candidates as may move together. */
    method MoveCandidates(x: Spec, candidates: set<string>, adds: string -> bool, ghost group: set<string>, ghost pool: set<string>)
      returns (ok: bool, ghost done: set<string>)
      requires candidates <= external.Keys && (candidates != {} ==> |candidates| <= |external| - x.unmanaged)
      requires candidates != {} ==> TakenFrom(x, external, group, pool, candidates)
      modifies this
      ensures external == old(external) - done && migrated == old(migrated) + done && ready == old(ready)
      ensures Allowed(x, old(external), done) && done <= candidates && (ok ==> (done == {} <==> candidates == {}))
      ensures ok && done != {} ==> FullyMoved(x, old(external), group, done)
      ensures done != {} ==> Preferred(x, old(external), group, done)
      ensures !ok ==> SomeCannotMove(x, old(external), adds)
    {
      hide Allowed, CannotMove, LeftOut, Limit, TakenFrom, Complete, Preferred, IsDataNode;
      ghost var ext := external;
      var chosen := ChooseMembers(x, external, candidates);
      if candidates != {} {
        ChosenComplete(x, ext, group, pool, candidates, chosen);
      }
      ok, done := MigrateAll(x, chosen, adds);
      FewerAllowed(x, ext, chosen, done);
      if candidates != {} {
        PartPreferred(x, ext, group, pool, candidates, chosen, done);
      }
    }

    /** Moves members of those that are next. */
    method MoveNext(x: Spec, sorted: seq<string>, group: Option<set<string>>, adds: string -> bool)
      returns (ok: bool, ghost done: set<string>)
      requires Lists(sorted, external.Keys)
      requires group.Some? ==> group.value <= external.Keys
      modifies this
      ensures external == old(external) - done && migrated == old(migrated) + done && ready == old(ready)
      ensures Allowed(x, old(external), done)
      ensures ok && done != {} ==> FullyMoved(x, old(external), GroupOf(group), done)
      ensures done != {} ==> Preferred(x, old(external), GroupOf(group), done)
      ensures !ok ==> (group.None? && x.strategy == ByServerGroup(true)) || SomeCannotMove(x, old(external), adds)
      ensures ok ==> (done == {} <==> NobodyNext(x, old(external), GroupOf(group)))
    {
      hide Allowed, TakenFrom, Preferred, NobodyNext, Lists, GroupOf, FullyMoved, SomeCannotMove;
      ghost var pool;
      var candidates;
      candidates, pool := GetMigrationCandidates(x, external, sorted, group);
      if candidates.None? {
        done := {};
        NobodyAllowed(x, external);
        assert external - {} == external && migrated + {} == migrated;
        return false, done;
      }
      ok, done := MoveCandidates(x, candidates.value, adds, GroupOf(group), pool);
    }

    /** One pass over the external members, unless a rebalance comes first or the cluster is still waiting. What
        is moved is allowed to move together, also if the pass is cut short. */
    method HandleMigrateNodes(x: Spec, waiting: bool, sorted: seq<string>, group: Option<set<string>>, adds: string -> bool)
      returns (ok: bool, ghost done: set<string>)
      requires Lists(sorted, external.Keys)
      requires group.Some? ==> group.value <= external.Keys
      modifies this
      ensures external == old(external) - done && migrated == old(migrated) + done && ready == old(ready)
      ensures Allowed(x, old(external), done)
      ensures ok && done != {} ==> FullyMoved(x, old(external), GroupOf(group), done)
      ensures done != {} ==> Preferred(x, old(external), GroupOf(group), done)
      ensures !ok ==> (group.None? && x.strategy == ByServerGroup(true)) || SomeCannotMove(x, old(external), adds)
      ensures old(needsRebalance) || waiting ==> ok && done == {}
      ensures ok && !old(needsRebalance) && !waiting ==> (done == {} <==> NobodyNext(x, old(external), GroupOf(group)))
    {
      hide Allowed, Preferred, NobodyNext, Lists, GroupOf, FullyMoved, SomeCannotMove;
      if needsRebalance || waiting {
        done := {};
        NobodyAllowed(x, external);
        assert external - {} == external && migrated + {} == migrated;
        return true, done;
      }
      ok, done := MoveNext(x, sorted, group, adds);
    }

    /** Declares the cluster ready once nobody is left to replace. */
    method HandleMarkReady(x: Spec, sorted: seq<string>, group: Option<set<string>>) returns (ok: bool)
      requires Lists(sorted, external.Keys)
      requires group.Some? ==> group.value <= external.Keys
      modifies this`ready
      ensures ok ==> (ready <==> old(ready) || NobodyNext(x, external, GroupOf(group)))
      ensures !ok ==> ready == old(ready) && group.None? && x.strategy == ByServerGroup(true)
    {
      var candidates, _ := GetMigrationCandidates(x, external, sorted, group);
      if candidates.None? {
        return false;
      }
      if candidates.value == {} {
        ready := true;
      }
      return true;
    }
  }

  lemma ChosenComplete(x: Spec, ext: Members, group: set<string>, pool: set<string>, candidates: set<string>, c: set<string>)
    requires TakenFrom(x, ext, group, pool, candidates) && c <= candidates <= ext.Keys
    requires |c| == Limit(x) || forall n | n in candidates - c :: LeftOut(x, ext, c, n)
    ensures Complete(x, ext, group, pool, candidates, c)
  {
    hide LeftOut, TakenFrom;
  }

  lemma PartPreferred(x: Spec, ext: Members, group: set<string>, pool: set<string>, candidates: set<string>, c: set<string>, done: set<string>)
    requires Complete(x, ext, group, pool, candidates, c) && done <= c
    ensures Preferred(x, ext, group, done)
  {
    hide LeftOut, Offered;
    assert done <= pool && Offered(x, ext, group, pool);
  }

  lemma NobodyAllowed(x: Spec, ext: Members)
    ensures Allowed(x, ext, {})
  {
    assert DataNodesIn(x, ext, {}) == {};
  }

  lemma FewerAllowed(x: Spec, ext: Members, s: set<string>, t: set<string>)
    requires Allowed(x, ext, s) && t <= s
    ensures Allowed(x, ext, t)
  {
    SubsetSize(t, s);
    SubsetSize(DataNodesIn(x, ext, t), DataNodesIn(x, ext, s));
  }

  /** A pass never leaves fewer members unmanaged than there are to stay so. */
  lemma UnmanagedStay(x: Spec, ext: Members, gone: set<string>)
    requires Allowed(x, ext, gone) && |ext| >= x.unmanaged
    ensures |ext - gone| >= x.unmanaged
  {
    assert (ext - gone).Keys == ext.Keys - gone;
    assert ext.Keys == (ext.Keys - gone) + gone;
    assert |ext - gone| == |(ext - gone).Keys| && |ext| == |ext.Keys|;
  }

  /** With nodes named one by one and no limit set, once the first node named has been moved nobody is offered
      any more although members are left, and so the cluster is declared ready. */
  lemma ReadyTooEarly() returns (x: Spec, ext: Members)
    ensures NobodyNext(x, ext, {}) && |ext| > x.unmanaged && x.unmanaged == 0
  {
    x := Spec(0, 0, ByNode(["first"]), [ServerClass("data", true, 2)]);
    ext := map["b" := Member("data", "second")];
    assert "first" != "second" by {
      assert "first"[0] != "second"[0];
    }
  }

  /** An order of classes that is as long as the list of them is taken as it is, and offers nobody exactly if it
      names none of the members' classes. A shorter one always offers somebody. */
  lemma ClassOrderMissesIff(x: Spec, given: seq<string>, ext: Members)
    requires x.strategy == ByServerClass(given) && forall n | n in ext :: exists c :: c in x.classes && c.name == ext[n].config
    ensures NobodyOffered(x, ext, {}) <==>
            ext == map[] || (given != [] && |given| >= |x.classes| && forall n | n in ext :: ext[n].config !in given)
  {
    if !(given != [] && |given| >= |x.classes|) {
      forall n | n in ext ensures ext[n].config in ClassOrder(given, x.classes) {
        var missing := Missing(given, x.classes);
        assert ext[n].config in given || ext[n].config in missing;
      }
    }
  }

  /** With such an order, too, the cluster is declared ready although members are left. */
  lemma ReadyTooEarlyByClass() returns (x: Spec, ext: Members)
    ensures NobodyNext(x, ext, {}) && |ext| > x.unmanaged && x.unmanaged == 0 && x.strategy.ByServerClass?
  {
    x := Spec(0, 0, ByServerClass(["query", "index"]), [ServerClass("query", false, 1), ServerClass("data", true, 2)]);
    ext := map["a" := Member("data", "a")];
    assert "data"[0] == 'd' && "query"[0] == 'q' && "index"[0] == 'i';
    ClassOrderMissesIff(x, ["query", "index"], ext) by {
      assert x.classes[1] in x.classes;
    }
    assert ext["a"].config !in ["query", "index"];
  }
}
