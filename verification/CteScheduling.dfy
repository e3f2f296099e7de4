/** Scheduling of the members of a WITH RECURSIVE clause. Dependencies are
    collected while the expressions are added, so an expression can only depend
    on names that were added before it. */
module CteScheduling {
  // ----- queries, as far as table references go -----

  datatype TableRef = Table(name: string) | Subquery(select: Select) | OtherSubquery
  datatype Select = Simple(from: seq<TableRef>, joins: seq<TableRef>) | SetOperation(left: Select, right: Select)
  datatype Cte = Cte(name: string, query: Select, recursive: bool)

  /** The query refers to the name, in FROM or JOIN, at any depth of subqueries. */
  predicate Mentions(q: Select, name: string)
    decreases q
  {
    match q
    case Simple(from, joins) =>
      || (exists i | 0 <= i < |from| :: RefMentions(from[i], name))
      || (exists i | 0 <= i < |joins| :: RefMentions(joins[i], name))
    case SetOperation(l, r) => Mentions(l, name) || Mentions(r, name)
  }

  predicate RefMentions(ref: TableRef, name: string)
    decreases ref
  {
    match ref
    case Table(table) => table == name
    case Subquery(select) => Mentions(select, name)
    case OtherSubquery => false
  }

  /** A table is referred to by its name, also from inside subqueries and from both
      sides of a set operation, and by nothing else. */
  lemma {:induction false} MentionsMeans(from: seq<TableRef>, joins: seq<TableRef>, l: Select, r: Select, name: string)
    ensures Table(name) in from + joins ==> Mentions(Simple(from, joins), name)
    ensures forall q | Subquery(q) in from + joins && Mentions(q, name) :: Mentions(Simple(from, joins), name)
    ensures Mentions(Simple(from, joins), name) ==>
      Table(name) in from + joins || exists q :: Subquery(q) in from + joins && Mentions(q, name)
    ensures Mentions(SetOperation(l, r), name) <==> Mentions(l, name) || Mentions(r, name)
  {
    forall ref | ref in from + joins && RefMentions(ref, name) ensures Mentions(Simple(from, joins), name) {
      if ref in from { var i :| 0 <= i < |from| && from[i] == ref; } else { var i :| 0 <= i < |joins| && joins[i] == ref; }
    }
    if Mentions(Simple(from, joins), name) {
      if i :| 0 <= i < |from| && RefMentions(from[i], name) {
        assert from[i] in from + joins;
      } else {
        var i :| 0 <= i < |joins| && RefMentions(joins[i], name);
        assert joins[i] in from + joins;
      }
      var ref :| ref in from + joins && RefMentions(ref, name);
      if ref.Subquery? { assert Subquery(ref.select) in from + joins; }
    }
    assert RefMentions(Table(name), name);
    forall q | Subquery(q) in from + joins && Mentions(q, name) ensures RefMentions(Subquery(q), name) {}
  }

  /** Exactly the names among `known` that a query refers to. */
  function QueryDependencies(q: Select, known: set<string>): (deps: set<string>)
    ensures forall n :: n in deps <==> n in known && Mentions(q, n)
  {
    match q
    case Simple(from, joins) => RefsDependencies(from, known) + RefsDependencies(joins, known)
    case SetOperation(l, r) => QueryDependencies(l, known) + QueryDependencies(r, known)
  }

  function RefsDependencies(refs: seq<TableRef>, known: set<string>): (deps: set<string>)
    ensures forall n :: n in deps <==> n in known && exists i | 0 <= i < |refs| :: RefMentions(refs[i], n)
  {
    if refs == [] then {}
    else
      assert forall i | 1 <= i < |refs| :: refs[i] == refs[1..][i - 1];
      RefDependencies(refs[0], known) + RefsDependencies(refs[1..], known)
  }

  function RefDependencies(ref: TableRef, known: set<string>): (deps: set<string>)
    ensures forall n :: n in deps <==> n in known && RefMentions(ref, n)
  {
    match ref
    case Table(name) => if name in known then {name} else {}
    case Subquery(select) => QueryDependencies(select, known)
    case OtherSubquery => {}
  }

  // ----- the graph -----

  datatype Node = Node(recursive: bool, dependencies: set<string>)

  type Nodes = map<string, Node>

  ghost predicate Grounded(nodes: Nodes) {
    forall n | n in nodes :: nodes[n].dependencies <= nodes.Keys
  }

  /** A non-empty set of recursive expressions each of which waits for another
      member of the set (or for itself). */
  ghost predicate Circular(nodes: Nodes, S: set<string>) {
    && S != {} && S <= nodes.Keys
    && forall n | n in S :: nodes[n].recursive && nodes[n].dependencies * S != {}
  }

  ghost predicate HasCircle(nodes: Nodes) {
    exists S: set<string> :: Circular(nodes, S)
  }

  /** `rank` numbers the expressions below `bound` so that each depends only on
      smaller numbers. */
  ghost predicate Ranked(nodes: Nodes, rank: map<string, nat>, bound: nat) {
    && (forall n | n in nodes :: n in rank && rank[n] < bound)
    && (forall n, d | n in nodes && d in nodes[n].dependencies :: d in nodes && d in rank && rank[d] < rank[n])
  }

  lemma {:induction false} RankedHasNoCircle(nodes: Nodes, rank: map<string, nat>, bound: nat, S: set<string>, n: string)
    requires Ranked(nodes, rank, bound) && S <= nodes.Keys && n in S
    requires forall m | m in S :: nodes[m].dependencies * S != {}
    ensures false
    decreases rank[n]
  {
    var d :| d in nodes[n].dependencies * S;
    RankedHasNoCircle(nodes, rank, bound, S, d);
  }

  /** Expressions numbered in the order of their addition never wait in a circle. */
  lemma {:induction false} RankedNeverCircular(nodes: Nodes, rank: map<string, nat>, bound: nat)
    requires Ranked(nodes, rank, bound)
    ensures !HasCircle(nodes)
  {
    if S: set<string> :| Circular(nodes, S) {
      var n :| n in S;
      RankedHasNoCircle(nodes, rank, bound, S, n);
    }
  }

  // ----- schedules -----

  /** `slot` gives each scheduled name its one group, and within that group it
      appears once. */
  ghost predicate Placed(groups: seq<seq<string>>, slot: map<string, nat>) {
    && (forall n | n in slot :: slot[n] < |groups| && n in groups[slot[n]])
    && (forall g: nat, i: nat {:trigger groups[g][i]} | g < |groups| && i < |groups[g]| ::
          groups[g][i] in slot && slot[groups[g][i]] == g)
    && (forall g, i, j | 0 <= g < |groups| && 0 <= i < j < |groups[g]| :: groups[g][i] != groups[g][j])
  }

  /** A recursive expression runs alone, strictly after all it depends on; the
      non-recursive ones share the first group. */
  ghost predicate Ordered(nodes: Nodes, groups: seq<seq<string>>, slot: map<string, nat>)
    requires Placed(groups, slot)
  {
    forall n | n in slot && n in nodes ::
      if nodes[n].recursive
      then groups[slot[n]] == [n] && forall d | d in nodes[n].dependencies :: d in slot && slot[d] < slot[n]
      else slot[n] == 0
  }

  ghost predicate Schedule(nodes: Nodes, groups: seq<seq<string>>, slot: map<string, nat>) {
    Placed(groups, slot) && Ordered(nodes, groups, slot)
  }

  /** Because all non-recursive expressions share the first group, every expression
      comes strictly after its dependencies exactly when no non-recursive one has
      any. */
  lemma {:induction false} DependenciesFirstIff(nodes: Nodes, groups: seq<seq<string>>, slot: map<string, nat>)
    requires Grounded(nodes) && slot.Keys == nodes.Keys && Schedule(nodes, groups, slot)
    ensures (forall n, d | n in nodes && d in nodes[n].dependencies :: slot[d] < slot[n]) <==>
            (forall n | n in nodes && !nodes[n].recursive :: nodes[n].dependencies == {})
  {
    forall n, d | n in nodes && d in nodes[n].dependencies
      ensures slot[d] < slot[n] <==> nodes[n].recursive
    {
      assert n in slot && d in slot;
    }
    if forall n, d | n in nodes && d in nodes[n].dependencies :: slot[d] < slot[n] {
      forall n | n in nodes && !nodes[n].recursive ensures nodes[n].dependencies == {} {
        assert forall d :: d !in nodes[n].dependencies;
      }
    }
  }

  lemma {:induction false} AppendSingleton(nodes: Nodes, groups: seq<seq<string>>, slot: map<string, nat>, n: string)
    requires Schedule(nodes, groups, slot) && n in nodes && nodes[n].recursive && n !in slot
    requires nodes[n].dependencies <= slot.Keys
    ensures Schedule(nodes, groups + [[n]], slot[n := |groups|])
  {
    var after := groups + [[n]];
    assert forall g | 0 <= g < |groups| :: after[g] == groups[g];
    assert after[|groups|] == [n];
  }

  class CteDependencyGraph {
    var nodes: Nodes
    var executionOrder: seq<seq<string>>

    constructor ()
      ensures nodes == map[] && executionOrder == []
    {
      nodes, executionOrder := map[], [];
    }

    /** Only names already in the graph count as dependencies. A fresh name gets
        the next number; a name that is already there is replaced, unchecked. */
    method AddCte(cte: Cte)
      requires Grounded(nodes)
      modifies this
      ensures nodes == old(nodes)[cte.name := Node(cte.recursive, QueryDependencies(cte.query, old(nodes).Keys))]
      ensures Grounded(nodes) && executionOrder == old(executionOrder)
      ensures forall rank, bound: nat | Ranked(old(nodes), rank, bound) && cte.name !in old(nodes) ::
                Ranked(nodes, rank[cte.name := bound], bound + 1)
    {
      var deps := QueryDependencies(cte.query, nodes.Keys);
      nodes := nodes[cte.name := Node(cte.recursive, deps)];
    }

    /** Succeeds exactly when no recursive expressions wait for each other, and
        then schedules every expression once, each recursive one alone and
        strictly after all its dependencies. */
    method BuildExecutionOrder() returns (ok: bool, ghost slot: map<string, nat>)
      requires Grounded(nodes)
      modifies this`executionOrder
      ensures ok <==> !HasCircle(nodes)
      ensures ok ==> slot.Keys == nodes.Keys && Schedule(nodes, executionOrder, slot)
      ensures !ok ==> executionOrder == old(executionOrder)
    {
      var groups;
      ok, groups, slot := GroupByLevel(nodes);
      if ok { executionOrder := groups; }
    }
  }

  method GroupByLevel(nodes: Nodes) returns (ok: bool, groups: seq<seq<string>>, ghost slot: map<string, nat>)
    requires Grounded(nodes)
    ensures ok <==> !HasCircle(nodes)
    ensures ok ==> slot.Keys == nodes.Keys && Schedule(nodes, groups, slot)
  {
    groups := [];
    var processed: set<string> := {};
    var remaining := nodes.Keys;
    var first := NonRecursiveGroup(nodes);
    if first != [] {
      groups := [first];
      processed := set n | n in first;
      remaining := remaining - processed;
    }
    slot := FirstGroup(nodes, first, groups, processed);
    while remaining != {}
      invariant Progress(nodes, groups, slot, processed, remaining)
    {
      var current := ReadyNames(nodes, remaining, processed);
      if current == [] {
        StuckIsCircular(nodes, processed, remaining);
        return false, groups, slot;
      }
      assert current[0] in current;
      groups, processed, remaining, slot := RunAlone(nodes, current, groups, processed, remaining, slot);
    }
    CompleteMeansNoCircle(nodes, groups, slot, processed);
    ok := true;
  }

  /** The state of the main loop: what is done is scheduled, what remains is
      recursive, and nothing that waits in a circle is done. */
  ghost predicate Progress(nodes: Nodes, groups: seq<seq<string>>, slot: map<string, nat>,
                           processed: set<string>, remaining: set<string>) {
    && Schedule(nodes, groups, slot) && slot.Keys == processed
    && processed !! remaining && processed + remaining == nodes.Keys
    && (forall n | n in remaining :: nodes[n].recursive)
    && (forall S | Circular(nodes, S) :: S !! processed)
  }

  /** A dependency of `n` has not been processed. */
  ghost predicate Blocked(nodes: Nodes, processed: set<string>, n: string) {
    n in nodes && !(nodes[n].dependencies <= processed)
  }

  lemma {:induction false} WaitsWithin(nodes: Nodes, processed: set<string>, remaining: set<string>, n: string)
    requires Grounded(nodes) && processed + remaining == nodes.Keys && Blocked(nodes, processed, n)
    ensures nodes[n].dependencies * remaining != {}
  {
    var d :| d in nodes[n].dependencies && d !in processed;
    assert d in processed + remaining;
    assert d in nodes[n].dependencies * remaining;
  }

  lemma {:induction false} StuckIsCircular(nodes: Nodes, processed: set<string>, remaining: set<string>)
    requires Grounded(nodes) && remaining != {} && processed + remaining == nodes.Keys
    requires forall n | n in remaining :: nodes[n].recursive
    requires forall n {:trigger Blocked(nodes, processed, n)} | n in remaining :: Blocked(nodes, processed, n)
    ensures HasCircle(nodes)
  {
    assert remaining <= nodes.Keys;
    forall n | n in remaining ensures nodes[n].dependencies * remaining != {} {
      assert Blocked(nodes, processed, n);
      WaitsWithin(nodes, processed, remaining, n);
    }
    assert Circular(nodes, remaining);
  }

  lemma {:induction false} CompleteMeansNoCircle(nodes: Nodes, groups: seq<seq<string>>, slot: map<string, nat>, processed: set<string>)
    requires Progress(nodes, groups, slot, processed, {})
    ensures processed == nodes.Keys && !HasCircle(nodes)
  {
    assert processed == processed + {};
  }

  lemma {:induction false} FirstGroup(nodes: Nodes, first: seq<string>, groups: seq<seq<string>>, processed: set<string>)
    returns (slot: map<string, nat>)
    requires forall n :: n in first <==> n in nodes && !nodes[n].recursive
    requires forall i, j | 0 <= i < j < |first| :: first[i] != first[j]
    requires groups == if first == [] then [] else [first]
    requires forall n :: n in processed <==> n in first
    ensures Progress(nodes, groups, slot, processed, nodes.Keys - processed)
  {
    slot := map n | n in processed :: 0;
  }

  /** The non-recursive names, in whatever order the hash set yields them. */
  method NonRecursiveGroup(nodes: Nodes) returns (group: seq<string>)
    ensures forall n :: n in group <==> n in nodes && !nodes[n].recursive
    ensures forall i, j | 0 <= i < j < |group| :: group[i] != group[j]
  {
    group := [];
    var left := nodes.Keys;
    while left != {}
      invariant left <= nodes.Keys
      invariant forall n :: n in group <==> n in nodes && n !in left && !nodes[n].recursive
      invariant forall i, j | 0 <= i < j < |group| :: group[i] != group[j]
    {
      var n :| n in left;
      left := left - {n};
      if !nodes[n].recursive { group := group + [n]; }
    }
  }

  /** The remaining names whose dependencies have all been processed. */
  method ReadyNames(nodes: Nodes, remaining: set<string>, processed: set<string>) returns (ready: seq<string>)
    requires remaining <= nodes.Keys
    ensures forall n :: n in ready <==> n in remaining && nodes[n].dependencies <= processed
    ensures forall i, j | 0 <= i < j < |ready| :: ready[i] != ready[j]
  {
    ready := [];
    var left := remaining;
    while left != {}
      invariant left <= remaining
      invariant forall n :: n in ready <==> n in remaining && n !in left && nodes[n].dependencies <= processed
      invariant forall i, j | 0 <= i < j < |ready| :: ready[i] != ready[j]
    {
      var n :| n in left;
      left := left - {n};
      if nodes[n].dependencies <= processed { ready := ready + [n]; }
    }
  }

  /** Gives each ready name a group of its own. */
  method RunAlone(nodes: Nodes, current: seq<string>, groups: seq<seq<string>>, processed: set<string>, remaining: set<string>,
                  ghost slot: map<string, nat>)
    returns (groups': seq<seq<string>>, processed': set<string>, remaining': set<string>, ghost slot': map<string, nat>)
    requires Progress(nodes, groups, slot, processed, remaining)
    requires forall n | n in current :: n in remaining && nodes[n].dependencies <= processed
    requires forall i, j | 0 <= i < j < |current| :: current[i] != current[j]
    ensures Progress(nodes, groups', slot', processed', remaining')
    ensures remaining' == remaining - set n | n in current
  {
    groups', processed', remaining', slot' := groups, processed, remaining, slot;
    assert remaining - Taken(current, 0) == remaining;
    for i := 0 to |current|
      invariant Progress(nodes, groups', slot', processed', remaining') && processed <= processed'
      invariant remaining' == remaining - Taken(current, i)
    {
      var n := current[i];
      TakenStep(current, i, remaining);
      ProgressStep(nodes, groups', slot', processed', remaining', n, processed);
      slot' := slot'[n := |groups'|];
      groups', processed', remaining' := groups' + [[n]], processed' + {n}, remaining' - {n};
    }
    assert Taken(current, |current|) == set n | n in current;
  }

  ghost function Taken(current: seq<string>, i: nat): set<string>
    requires i <= |current|
  {
    set k | 0 <= k < i :: current[k]
  }

  lemma {:induction false} TakenStep(current: seq<string>, i: nat, remaining: set<string>)
    requires i < |current| && (forall k, l | 0 <= k < l < |current| :: current[k] != current[l]) && current[i] in remaining
    ensures current[i] in remaining - Taken(current, i)
    ensures remaining - Taken(current, i + 1) == (remaining - Taken(current, i)) - {current[i]}
  {
    assert Taken(current, i + 1) == Taken(current, i) + {current[i]};
  }

  lemma {:induction false} ProgressStep(
    nodes: Nodes, groups: seq<seq<string>>, slot: map<string, nat>, processed: set<string>, remaining: set<string>,
    n: string, earlier: set<string>)
    requires Progress(nodes, groups, slot, processed, remaining) && n in remaining
    requires nodes[n].dependencies <= earlier <= processed
    ensures Progress(nodes, groups + [[n]], slot[n := |groups|], processed + {n}, remaining - {n})
  {
    AppendSingleton(nodes, groups, slot, n);
    forall S | Circular(nodes, S) ensures S !! processed + {n} {
      assert S !! processed;
      assert nodes[n].dependencies * S == {};
    }
  }

  ghost function NamesOf(ctes: seq<Cte>, n: nat): set<string>
    requires n <= |ctes|
  {
    set i | 0 <= i < n :: ctes[i].name
  }

  ghost predicate DistinctNames(ctes: seq<Cte>, n: nat)
    requires n <= |ctes|
  {
    forall i, j | 0 <= i < j < n :: ctes[i].name != ctes[j].name
  }

  lemma {:induction false} NamesStep(ctes: seq<Cte>, n: nat)
    requires n < |ctes|
    ensures NamesOf(ctes, n + 1) == NamesOf(ctes, n) + {ctes[n].name}
    ensures DistinctNames(ctes, n + 1) ==> DistinctNames(ctes, n) && ctes[n].name !in NamesOf(ctes, n)
  {
  }

  /** No later expression among the first `n` has the same name. */
  ghost predicate Final(ctes: seq<Cte>, i: nat, n: nat)
    requires i < n <= |ctes|
  {
    forall k | i < k < n :: ctes[k].name != ctes[i].name
  }

  /** The expression's own flag, and the names added before it that its query
      refers to. */
  ghost function NodeOf(ctes: seq<Cte>, i: nat): Node
    requires i < |ctes|
  {
    Node(ctes[i].recursive, QueryDependencies(ctes[i].query, NamesOf(ctes, i)))
  }

  /** The nodes after `n` additions: the last expression of each name. */
  ghost predicate Reflects(nodes: Nodes, ctes: seq<Cte>, n: nat)
    requires n <= |ctes|
  {
    && nodes.Keys == NamesOf(ctes, n)
    && forall i: nat {:trigger NodeOf(ctes, i)} | i < n && Final(ctes, i, n) ::
         ctes[i].name in nodes && nodes[ctes[i].name] == NodeOf(ctes, i)
  }

  lemma {:induction false} FinalStep(nodes: Nodes, ctes: seq<Cte>, n: nat, i: nat)
    requires i < n < |ctes| && Reflects(nodes, ctes, n) && Final(ctes, i, n + 1)
    ensures ctes[i].name in nodes && ctes[n].name != ctes[i].name && nodes[ctes[i].name] == NodeOf(ctes, i)
  {
    assert Final(ctes, i, n);
  }

  lemma {:induction false} ReflectsStep(nodes: Nodes, ctes: seq<Cte>, n: nat, after: Nodes)
    requires n < |ctes| && Reflects(nodes, ctes, n) && after == nodes[ctes[n].name := NodeOf(ctes, n)]
    ensures Reflects(after, ctes, n + 1)
  {
    forall i: nat | i < n + 1 && Final(ctes, i, n + 1)
      ensures ctes[i].name in after && after[ctes[i].name] == NodeOf(ctes, i)
    {
      if i < n { FinalStep(nodes, ctes, n, i); }
    }
    assert after.Keys == NamesOf(ctes, n + 1) by {
      assert after.Keys == nodes.Keys + {ctes[n].name};
      NamesStep(ctes, n);
    }
  }

  /** What the clause asks for, in its own terms: a recursive expression comes
      strictly after every earlier one that its query refers to. */
  ghost predicate RecursiveAfterMentioned(ctes: seq<Cte>, slot: map<string, nat>)
    requires NamesOf(ctes, |ctes|) <= slot.Keys
  {
    forall i: nat, j: nat |
      j < i < |ctes| && Final(ctes, i, |ctes|) && ctes[i].recursive && Mentions(ctes[i].query, ctes[j].name) ::
      slot[ctes[j].name] < slot[ctes[i].name]
  }

  lemma {:induction false} ScheduledAfterMentioned(nodes: Nodes, ctes: seq<Cte>, groups: seq<seq<string>>, slot: map<string, nat>)
    requires Reflects(nodes, ctes, |ctes|) && slot.Keys == nodes.Keys && Schedule(nodes, groups, slot)
    ensures RecursiveAfterMentioned(ctes, slot)
  {
    forall i: nat, j: nat |
      j < i < |ctes| && Final(ctes, i, |ctes|) && ctes[i].recursive && Mentions(ctes[i].query, ctes[j].name)
      ensures slot[ctes[j].name] < slot[ctes[i].name]
    {
      assert ctes[j].name in NamesOf(ctes, i);
      assert ctes[j].name in NodeOf(ctes, i).dependencies;
    }
  }

  /** Adds the expressions one by one. Distinct names get a numbering in which
      dependencies come first. */
  method BuildGraph(ctes: seq<Cte>) returns (graph: CteDependencyGraph, ghost rank: map<string, nat>)
    ensures fresh(graph) && Grounded(graph.nodes) && Reflects(graph.nodes, ctes, |ctes|)
    ensures DistinctNames(ctes, |ctes|) ==> Ranked(graph.nodes, rank, |ctes|)
  {
    graph := new CteDependencyGraph();
    rank := map[];
    for i := 0 to |ctes|
      invariant fresh(graph) && Grounded(graph.nodes) && Reflects(graph.nodes, ctes, i)
      invariant DistinctNames(ctes, i) ==> Ranked(graph.nodes, rank, i)
    {
      AddNext(graph, ctes, i, rank);
      rank := rank[ctes[i].name := i];
    }
  }

  method AddNext(graph: CteDependencyGraph, ctes: seq<Cte>, i: nat, ghost rank: map<string, nat>)
    requires i < |ctes| && Grounded(graph.nodes) && Reflects(graph.nodes, ctes, i)
    requires DistinctNames(ctes, i) ==> Ranked(graph.nodes, rank, i)
    modifies graph
    ensures Grounded(graph.nodes) && Reflects(graph.nodes, ctes, i + 1)
    ensures DistinctNames(ctes, i + 1) ==> Ranked(graph.nodes, rank[ctes[i].name := i], i + 1)
  {
    NamesStep(ctes, i);
    ReflectsStep(graph.nodes, ctes, i, graph.nodes[ctes[i].name := NodeOf(ctes, i)]);
    graph.AddCte(ctes[i]);
  }

  /** A whole WITH RECURSIVE clause. The order is found exactly when the last
      expressions of the names do not wait in a circle, which distinct names never
      do, and it is a schedule of them in which each recursive one comes after all
      earlier ones it refers to. */
  method ScheduleClause(ctes: seq<Cte>) returns (graph: CteDependencyGraph, ok: bool, ghost slot: map<string, nat>)
    ensures fresh(graph) && Reflects(graph.nodes, ctes, |ctes|)
    ensures (ok <==> !HasCircle(graph.nodes)) && (DistinctNames(ctes, |ctes|) ==> ok)
    ensures ok ==> slot.Keys == graph.nodes.Keys && Schedule(graph.nodes, graph.executionOrder, slot)
    ensures ok ==> RecursiveAfterMentioned(ctes, slot)
  {
    ghost var rank;
    graph, rank := BuildGraph(ctes);
    if DistinctNames(ctes, |ctes|) { RankedNeverCircular(graph.nodes, rank, |ctes|); }
    ok, slot := graph.BuildExecutionOrder();
    if ok { ScheduledAfterMentioned(graph.nodes, ctes, graph.executionOrder, slot); }
  }

  /** Re-adding a name can make an expression wait for itself. */
  lemma {:induction false} RepeatedNameCanBlock()
    ensures var again := map["t" := Node(true, QueryDependencies(Simple([Table("t")], []), {"t"}))];
            HasCircle(again)
  {
    var again := map["t" := Node(true, QueryDependencies(Simple([Table("t")], []), {"t"}))];
    assert RefsDependencies([Table("t")], {"t"}) == {"t"};
    assert again["t"].dependencies * {"t"} == {"t"};
    assert Circular(again, {"t"});
  }
}
