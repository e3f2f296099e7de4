/** The two depth-first searches over the view dependency graph: cycle detection
    and dependency depth. The graph is arbitrary, views and their dependencies
    are visited in any order, and views that are mentioned but have no entry are
    leaves. */
module ViewGraph {
  import opened Values

  type Graph = map<string, set<string>>

  function Deps(g: Graph, v: string): set<string> {
    if v in g then g[v] else {}
  }

  ghost function Mentioned(g: Graph): set<string> {
    g.Keys + set v, d | v in g && d in g[v] :: d
  }

  // ----- paths and cycles -----

  ghost predicate Path(g: Graph, p: seq<string>) {
    p != [] && forall i | 0 <= i < |p| - 1 :: p[i + 1] in Deps(g, p[i])
  }

  ghost predicate Cycle(g: Graph, p: seq<string>) {
    Path(g, p) && |p| >= 2 && p[0] == p[|p| - 1]
  }

  ghost predicate OnCycle(g: Graph, v: string) {
    exists p :: Cycle(g, p) && p[0] == v
  }

  ghost predicate Acyclic(g: Graph) {
    forall p :: !Cycle(g, p)
  }

  ghost predicate PathFrom(g: Graph, v: string, p: seq<string>) {
    Path(g, p) && p[0] == v
  }

  ghost predicate CycleReachable(g: Graph, v: string) {
    exists p, q :: PathFrom(g, v, p) && Cycle(g, q) && q[0] == p[|p| - 1]
  }

  lemma {:induction false} TailPath(g: Graph, v: string, p: seq<string>)
    requires PathFrom(g, v, p) && |p| >= 2
    ensures p[1] in Deps(g, v) && PathFrom(g, p[1], p[1..])
  {
    assert p[0 + 1] in Deps(g, p[0]);
    forall i | 0 <= i < |p[1..]| - 1 ensures p[1..][i + 1] in Deps(g, p[1..][i]) {
      assert p[(i + 1) + 1] in Deps(g, p[i + 1]);
    }
  }

  lemma {:induction false} ConsPath(g: Graph, v: string, d: string, p: seq<string>)
    requires PathFrom(g, d, p) && d in Deps(g, v)
    ensures PathFrom(g, v, [v] + p)
  {
    var q := [v] + p;
    forall i | 0 <= i < |q| - 1 ensures q[i + 1] in Deps(g, q[i]) {
      if i > 0 { assert p[(i - 1) + 1] in Deps(g, p[i - 1]); }
    }
  }

  lemma {:induction false} OnCycleReaches(g: Graph, v: string)
    requires OnCycle(g, v)
    ensures CycleReachable(g, v)
  {
    var q :| Cycle(g, q) && q[0] == v;
    assert PathFrom(g, v, [v]);
  }

  lemma {:induction false} ParentReaches(g: Graph, v: string, d: string)
    requires d in Deps(g, v) && CycleReachable(g, d)
    ensures CycleReachable(g, v)
  {
    var p, q :| PathFrom(g, d, p) && Cycle(g, q) && q[0] == p[|p| - 1];
    ConsPath(g, v, d, p);
    assert ([v] + p)[|[v] + p| - 1] == p[|p| - 1];
  }

  /** Every numbered view depends only on views with smaller numbers. */
  ghost predicate Ranked(g: Graph, rank: map<string, nat>, bound: nat) {
    && (forall v | v in rank :: rank[v] < bound)
    && (forall v, d | v in rank && d in Deps(g, v) :: d in rank && rank[d] < rank[v])
  }

  lemma {:induction false} RankFalls(g: Graph, rank: map<string, nat>, bound: nat, p: seq<string>, i: nat)
    requires Ranked(g, rank, bound) && Path(g, p) && p[0] in rank && i < |p|
    ensures p[i] in rank && rank[p[i]] + i <= rank[p[0]]
  {
    if i != 0 {
      RankFalls(g, rank, bound, p, i - 1);
      assert p[(i - 1) + 1] in Deps(g, p[i - 1]);
    }
  }

  lemma {:induction false} RankedIsAcyclic(g: Graph, rank: map<string, nat>, bound: nat)
    requires Ranked(g, rank, bound) && g.Keys <= rank.Keys
    ensures Acyclic(g)
  {
    forall p ensures !Cycle(g, p) {
      if Cycle(g, p) {
        assert p[0 + 1] in Deps(g, p[0]);
        RankFalls(g, rank, bound, p, |p| - 1);
      }
    }
  }

  // ----- cycle detection -----

  /** The order in which the hash map yields the views and each hash set of
      dependencies its members. */
  datatype Order = Order(views: seq<string>, deps: map<string, seq<string>>)

  ghost predicate NoRepeats(s: seq<string>) {
    forall i, j | 0 <= i < j < |s| :: s[i] != s[j]
  }

  /** `s` lists the members of `m`, each once. */
  ghost predicate Lists(s: seq<string>, m: set<string>) {
    NoRepeats(s) && forall x :: x in s <==> x in m
  }

  ghost predicate OrderOf(g: Graph, o: Order) {
    && Lists(o.views, g.Keys) && o.deps.Keys == g.Keys
    && forall v | v in g :: Lists(o.deps[v], g[v])
  }

  function Next(o: Order, v: string): seq<string> {
    if v in o.deps then o.deps[v] else []
  }

  lemma {:induction false} NextLists(g: Graph, o: Order, v: string)
    requires OrderOf(g, o)
    ensures forall d :: d in Next(o, v) <==> d in Deps(g, v)
    ensures forall d | d in Next(o, v) :: d in Mentioned(g)
  {
  }

  datatype Outcome = Outcome(cycle: Option<string>, visited: set<string>, stack: set<string>)

  /** The search from `v`. An early return leaves the ancestors on the stack. */
  ghost function Search(g: Graph, o: Order, v: string, visited: set<string>, stack: set<string>): (r: Outcome)
    requires OrderOf(g, o) && v in Mentioned(g) && v !in visited
    ensures visited + {v} <= r.visited
    decreases Mentioned(g) - visited, 0
  {
    NextLists(g, o, v);
    var r := SearchEach(g, o, Next(o, v), visited + {v}, stack + {v});
    if r.cycle.Some? then r else r.(stack := r.stack - {v})
  }

  ghost function SearchEach(g: Graph, o: Order, ds: seq<string>, visited: set<string>, stack: set<string>): (r: Outcome)
    requires OrderOf(g, o) && forall d | d in ds :: d in Mentioned(g)
    ensures visited <= r.visited
    decreases Mentioned(g) - visited, 1 + |ds|
  {
    if ds == [] then Outcome(None, visited, stack)
    else if ds[0] !in visited then
      var r := Search(g, o, ds[0], visited, stack);
      if r.cycle.Some? then r else SearchEach(g, o, ds[1..], r.visited, r.stack)
    else if ds[0] in stack then Outcome(Some(ds[0]), visited, stack)
    else SearchEach(g, o, ds[1..], visited, stack)
  }

  /** The shared bookkeeping and the reports after the first `i` roots. */
  datatype Progress = Progress(visited: set<string>, stack: set<string>, reports: seq<string>)

  ghost function NextRoot(g: Graph, o: Order, v: string, s: Progress): Progress
    requires OrderOf(g, o) && v in Mentioned(g)
  {
    if v in s.visited then s
    else
      var r := Search(g, o, v, s.visited, s.stack);
      Progress(r.visited, r.stack, if r.cycle.Some? then s.reports + [r.cycle.value] else s.reports)
  }

  ghost function After(g: Graph, o: Order, i: nat): Progress
    requires OrderOf(g, o) && i <= |o.views|
  {
    if i == 0 then Progress({}, {}, [])
    else
      assert o.views[i - 1] in o.views;
      NextRoot(g, o, o.views[i - 1], After(g, o, i - 1))
  }

  ghost function AllReports(g: Graph, o: Order): seq<string>
    requires OrderOf(g, o)
  {
    After(g, o, |o.views|).reports
  }

  /** The bookkeeping of a search that has met no cycle: the recursion stack is
      the trail of ancestors leading to `v`, and every other visited view is
      finished and numbered. */
  ghost predicate Sane(g: Graph, v: string, visited: set<string>, stack: set<string>, trail: seq<string>,
                       rank: map<string, nat>, bound: nat) {
    && Path(g, trail + [v])
    && (forall s :: s in stack <==> s in trail)
    && stack <= visited && rank.Keys == visited - stack
    && Ranked(g, rank, bound)
  }

  /** The trail closes on itself at `d`. */
  lemma {:induction false} TrailCloses(g: Graph, trail: seq<string>, v: string, d: string)
    requires Path(g, trail + [v]) && d in Deps(g, v) && d in trail + [v]
    ensures OnCycle(g, d)
  {
    var full := trail + [v];
    var i :| 0 <= i < |full| && full[i] == d;
    var p := full[i..] + [d];
    forall k | 0 <= k < |p| - 1 ensures p[k + 1] in Deps(g, p[k]) {
      if k < |p| - 2 { assert full[i + k + 1] in Deps(g, full[i + k]); }
    }
    assert Cycle(g, p) && p[0] == d;
  }

  lemma {:induction false} TrailExtends(g: Graph, trail: seq<string>, v: string, d: string)
    requires Path(g, trail + [v]) && d in Deps(g, v)
    ensures Path(g, (trail + [v]) + [d])
  {
    var full, p := trail + [v], (trail + [v]) + [d];
    forall k | 0 <= k < |p| - 1 ensures p[k + 1] in Deps(g, p[k]) {
      if k < |p| - 2 { assert full[k + 1] in Deps(g, full[k]); }
    }
  }

  /** Inside the loop over the dependencies of `v`: `v` itself is on the stack,
      and the dependencies no longer in `left` are finished. */
  ghost predicate Midway(g: Graph, v: string, visited: set<string>, stack: set<string>, trail: seq<string>,
                         rank: map<string, nat>, bound: nat, left: set<string>) {
    && Path(g, trail + [v])
    && (forall s :: s in stack <==> s in trail + [v])
    && stack <= visited && rank.Keys == visited - stack
    && Ranked(g, rank, bound)
    && forall d | d in Deps(g, v) && d !in left :: d in rank
  }

  lemma {:induction false} Enter(g: Graph, v: string, visited: set<string>, stack: set<string>, trail: seq<string>,
      rank: map<string, nat>, bound: nat)
    requires Sane(g, v, visited, stack, trail, rank, bound) && v !in visited
    ensures Midway(g, v, visited + {v}, stack + {v}, trail, rank, bound, Deps(g, v))
  {
  }

  lemma {:induction false} IntoChild(g: Graph, v: string, visited: set<string>, stack: set<string>, trail: seq<string>,
      rank: map<string, nat>, bound: nat, left: set<string>, d: string)
    requires Midway(g, v, visited, stack, trail, rank, bound, left) && d in Deps(g, v)
    ensures Sane(g, d, visited, stack, trail + [v], rank, bound)
  {
    TrailExtends(g, trail, v, d);
  }

  lemma {:induction false} ChildDone(g: Graph, v: string, visited: set<string>, stack: set<string>, trail: seq<string>,
      rank: map<string, nat>, bound: nat, left: set<string>, d: string,
      visited': set<string>, rank': map<string, nat>, bound': nat)
    requires Midway(g, v, visited, stack, trail, rank, bound, left)
    requires visited <= visited' && rank'.Keys == visited' - stack && d in rank' && Ranked(g, rank', bound')
    ensures Midway(g, v, visited', stack, trail, rank', bound', left - {d})
  {
    assert forall x | x in rank :: x in rank.Keys && x in rank'.Keys;
  }

  lemma {:induction false} Leave(g: Graph, v: string, visited: set<string>, stack: set<string>, trail: seq<string>,
      rank: map<string, nat>, bound: nat)
    requires Midway(g, v, visited, stack, trail, rank, bound, {}) && v in stack
    ensures rank[v := bound].Keys == visited - (stack - {v}) && Ranked(g, rank[v := bound], bound + 1)
  {
    assert rank[v := bound].Keys == rank.Keys + {v};
    assert v !in rank.Keys;
  }

  /** From sound bookkeeping, a report names a view on a cycle, and no report
      means the bookkeeping is sound again with `v` finished. */
  lemma {:induction false} SearchSound(
    g: Graph, o: Order, v: string, visited: set<string>, stack: set<string>, trail: seq<string>, rank: map<string, nat>, bound: nat)
    returns (rank': map<string, nat>, bound': nat)
    requires OrderOf(g, o) && v in Mentioned(g) && v !in visited
    requires Sane(g, v, visited, stack, trail, rank, bound)
    ensures var r := Search(g, o, v, visited, stack);
      if r.cycle.Some? then OnCycle(g, r.cycle.value)
      else r.stack == stack && rank'.Keys == r.visited - stack && v in rank' && Ranked(g, rank', bound')
    decreases Mentioned(g) - visited, 0
  {
    NextLists(g, o, v);
    Enter(g, v, visited, stack, trail, rank, bound);
    rank', bound' := EachSound(g, o, v, Next(o, v), visited + {v}, stack + {v}, trail, rank, bound, Deps(g, v));
    var r := SearchEach(g, o, Next(o, v), visited + {v}, stack + {v});
    if r.cycle.None? {
      Leave(g, v, r.visited, r.stack, trail, rank', bound');
      rank', bound' := rank'[v := bound'], bound' + 1;
      assert (stack + {v}) - {v} == stack;
    }
  }

  lemma {:induction false} EachSound(
    g: Graph, o: Order, v: string, ds: seq<string>, visited: set<string>, stack: set<string>, trail: seq<string>,
    rank: map<string, nat>, bound: nat, left: set<string>)
    returns (rank': map<string, nat>, bound': nat)
    requires OrderOf(g, o) && forall d | d in ds :: d in Mentioned(g) && d in Deps(g, v)
    requires Midway(g, v, visited, stack, trail, rank, bound, left) && forall d | d in left :: d in ds
    ensures var r := SearchEach(g, o, ds, visited, stack);
      if r.cycle.Some? then OnCycle(g, r.cycle.value)
      else r.stack == stack && Midway(g, v, r.visited, stack, trail, rank', bound', {})
    decreases Mentioned(g) - visited, 1 + |ds|
  {
    rank', bound' := rank, bound;
    if ds == [] {
      assert left == {};
    } else if ds[0] in stack {
      if ds[0] in visited { TrailCloses(g, trail, v, ds[0]); }
    } else if ds[0] in visited {
      ChildDone(g, v, visited, stack, trail, rank, bound, left, ds[0], visited, rank, bound);
      rank', bound' := EachSound(g, o, v, ds[1..], visited, stack, trail, rank, bound, left - {ds[0]});
    } else {
      IntoChild(g, v, visited, stack, trail, rank, bound, left, ds[0]);
      var rank1, bound1 := SearchSound(g, o, ds[0], visited, stack, trail + [v], rank, bound);
      var r := Search(g, o, ds[0], visited, stack);
      if r.cycle.None? {
        ChildDone(g, v, visited, stack, trail, rank, bound, left, ds[0], r.visited, rank1, bound1);
        rank', bound' := EachSound(g, o, v, ds[1..], r.visited, stack, trail, rank1, bound1, left - {ds[0]});
      }
    }
  }

  // ----- what a report means once the stack holds leftovers -----

  /** Off every cycle, but with a dependent, and leading to a cycle. */
  ghost predicate Misleading(g: Graph, v: string) {
    && !OnCycle(g, v) && CycleReachable(g, v)
    && exists c :: v in Deps(g, c)
  }

  /** Whatever is on the stack is an ancestor or a leftover that reaches a cycle. */
  ghost predicate Littered(g: Graph, visited: set<string>, stack: set<string>, trail: seq<string>) {
    stack <= visited && forall s | s in stack :: s in trail || CycleReachable(g, s)
  }

  lemma {:induction false} SearchLittered(g: Graph, o: Order, v: string, visited: set<string>, stack: set<string>, trail: seq<string>)
    requires OrderOf(g, o) && v in Mentioned(g) && v !in visited
    requires Path(g, trail + [v]) && Littered(g, visited, stack, trail)
    ensures var r := Search(g, o, v, visited, stack);
      && Littered(g, r.visited, r.stack, trail)
      && (r.cycle.Some? ==> CycleReachable(g, v) && (OnCycle(g, r.cycle.value) || Misleading(g, r.cycle.value)))
      && (r.cycle.None? ==> r.stack == stack)
    decreases Mentioned(g) - visited, 0
  {
    NextLists(g, o, v);
    EachLittered(g, o, v, Next(o, v), visited + {v}, stack + {v}, trail);
    assert (stack + {v}) - {v} == stack;
  }

  lemma {:induction false} LeftoverReaches(g: Graph, v: string, d: string, visited: set<string>, stack: set<string>, trail: seq<string>)
    requires Path(g, trail + [v]) && Littered(g, visited, stack, trail + [v]) && d in Deps(g, v) && d in stack
    ensures CycleReachable(g, v) && (OnCycle(g, d) || Misleading(g, d))
  {
    if d in trail + [v] { TrailCloses(g, trail, v, d); }
    if OnCycle(g, d) { OnCycleReaches(g, d); }
    ParentReaches(g, v, d);
  }

  lemma {:induction false} EachLittered(
    g: Graph, o: Order, v: string, ds: seq<string>, visited: set<string>, stack: set<string>, trail: seq<string>)
    requires OrderOf(g, o) && forall d | d in ds :: d in Mentioned(g) && d in Deps(g, v)
    requires Path(g, trail + [v]) && Littered(g, visited, stack, trail + [v])
    ensures var r := SearchEach(g, o, ds, visited, stack);
      if r.cycle.None? then r.stack == stack
      else
        && Littered(g, r.visited, r.stack, trail) && CycleReachable(g, v)
        && (OnCycle(g, r.cycle.value) || Misleading(g, r.cycle.value))
    decreases Mentioned(g) - visited, 1 + |ds|
  {
    if ds != [] {
      var d := ds[0];
      if d !in visited {
        TrailExtends(g, trail, v, d);
        SearchLittered(g, o, d, visited, stack, trail + [v]);
        var r := Search(g, o, d, visited, stack);
        if r.cycle.None? { EachLittered(g, o, v, ds[1..], r.visited, r.stack, trail); } else { ParentReaches(g, v, d); }
      } else if d in stack {
        LeftoverReaches(g, v, d, visited, stack, trail);
      } else {
        EachLittered(g, o, v, ds[1..], visited, stack, trail);
      }
    }
  }

  ghost predicate AllReachCycles(g: Graph, reports: seq<string>) {
    forall c | c in reports :: OnCycle(g, c) || Misleading(g, c)
  }

  lemma {:induction false} ReportsReachCycles(g: Graph, o: Order, i: nat)
    requires OrderOf(g, o) && i <= |o.views|
    ensures Littered(g, After(g, o, i).visited, After(g, o, i).stack, []) && AllReachCycles(g, After(g, o, i).reports)
  {
    if i != 0 {
      var s, v := After(g, o, i - 1), o.views[i - 1];
      ReportsReachCycles(g, o, i - 1);
      assert v in o.views;
      if v !in s.visited { SearchLittered(g, o, v, s.visited, s.stack, []); }
    }
  }

  /** While nothing has been reported the bookkeeping is sound; the first report
      is right. */
  ghost predicate SoundSoFar(g: Graph, s: Progress, rank: map<string, nat>, bound: nat) {
    if s.reports == [] then s.stack == {} && rank.Keys == s.visited && Ranked(g, rank, bound) else OnCycle(g, s.reports[0])
  }

  lemma {:induction false} NextRootSound(g: Graph, o: Order, v: string, s: Progress, rank: map<string, nat>, bound: nat)
    returns (rank': map<string, nat>, bound': nat)
    requires OrderOf(g, o) && v in Mentioned(g) && SoundSoFar(g, s, rank, bound)
    ensures SoundSoFar(g, NextRoot(g, o, v, s), rank', bound') && s.visited + {v} <= NextRoot(g, o, v, s).visited
  {
    rank', bound' := rank, bound;
    if v !in s.visited && s.reports == [] {
      assert Sane(g, v, s.visited, s.stack, [], rank, bound);
      rank', bound' := SearchSound(g, o, v, s.visited, s.stack, [], rank, bound);
      var r := Search(g, o, v, s.visited, s.stack);
      assert r.visited - {} == r.visited;
    }
  }

  lemma {:induction false} SoundAfter(g: Graph, o: Order, i: nat) returns (rank: map<string, nat>, bound: nat)
    requires OrderOf(g, o) && i <= |o.views|
    ensures SoundSoFar(g, After(g, o, i), rank, bound)
    ensures forall k | 0 <= k < i :: o.views[k] in After(g, o, i).visited
  {
    if i == 0 {
      rank, bound := map[], 0;
    } else {
      rank, bound := SoundAfter(g, o, i - 1);
      assert o.views[i - 1] in o.views;
      rank, bound := NextRootSound(g, o, o.views[i - 1], After(g, o, i - 1), rank, bound);
    }
  }

  lemma {:induction false} SilenceMeansAcyclic(g: Graph, o: Order)
    requires OrderOf(g, o)
    ensures if AllReports(g, o) == [] then Acyclic(g) else OnCycle(g, AllReports(g, o)[0])
  {
    var rank, bound := SoundAfter(g, o, |o.views|);
    if AllReports(g, o) == [] {
      forall v | v in g ensures v in rank.Keys {
        assert v in o.views;
      }
      RankedIsAcyclic(g, rank, bound);
    }
  }

  /** For every order: nothing is reported exactly when the graph is acyclic; the
      first report lies on a cycle; every report leads to one; and a report off
      every cycle is a misleading view. */
  lemma {:induction false} ReportsMean(g: Graph, o: Order)
    requires OrderOf(g, o)
    ensures AllReports(g, o) == [] <==> Acyclic(g)
    ensures AllReports(g, o) != [] ==> OnCycle(g, AllReports(g, o)[0])
    ensures forall c | c in AllReports(g, o) :: CycleReachable(g, c) && (OnCycle(g, c) || Misleading(g, c))
  {
    SilenceMeansAcyclic(g, o);
    ReportsReachCycles(g, o, |o.views|);
    forall c | c in AllReports(g, o) ensures CycleReachable(g, c) {
      if OnCycle(g, c) { OnCycleReaches(g, c); }
    }
    if AllReports(g, o) != [] {
      var p :| Cycle(g, p) && p[0] == AllReports(g, o)[0];
    }
  }

  /** The same search with its bookkeeping in variables. */
  method DetectCycle(g: Graph, o: Order, v: string, visited: set<string>, stack: set<string>)
    returns (cycle: Option<string>, visited': set<string>, stack': set<string>)
    requires OrderOf(g, o) && v in Mentioned(g) && v !in visited
    ensures Outcome(cycle, visited', stack') == Search(g, o, v, visited, stack)
    decreases Mentioned(g) - visited
  {
    NextLists(g, o, v);
    visited', stack' := visited + {v}, stack + {v};
    var ds := Next(o, v);
    for i := 0 to |ds|
      invariant visited + {v} <= visited'
      invariant SearchEach(g, o, ds, visited + {v}, stack + {v}) == SearchEach(g, o, ds[i..], visited', stack')
    {
      var d := ds[i];
      assert ds[i..][0] == d && ds[i..][1..] == ds[i + 1..];
      if d !in visited' {
        cycle, visited', stack' := DetectCycle(g, o, d, visited', stack');
        if cycle.Some? { return; }
      } else if d in stack' {
        return Some(d), visited', stack';
      }
    }
    stack' := stack' - {v};
    cycle := None;
  }

  method CollectReports(g: Graph, o: Order) returns (cycles: seq<string>)
    requires OrderOf(g, o)
    ensures cycles == AllReports(g, o)
  {
    cycles := [];
    var visited: set<string>, stack: set<string> := {}, {};
    for i := 0 to |o.views|
      invariant After(g, o, i) == Progress(visited, stack, cycles)
    {
      var v := o.views[i];
      assert v in o.views;
      if v !in visited {
        var cycle;
        cycle, visited, stack := DetectCycle(g, o, v, visited, stack);
        if cycle.Some? { cycles := cycles + [cycle.value]; }
      }
    }
  }

  /** Runs the search from every view that was not yet visited, sharing the
      bookkeeping between roots. */
  method ValidateDependencies(g: Graph, o: Order) returns (cycles: seq<string>)
    requires OrderOf(g, o)
    ensures cycles == AllReports(g, o)
    ensures cycles == [] <==> Acyclic(g)
    ensures cycles != [] ==> OnCycle(g, cycles[0])
    ensures forall c | c in cycles :: CycleReachable(g, c) && (OnCycle(g, c) || Misleading(g, c))
  {
    cycles := CollectReports(g, o);
    ReportsMean(g, o);
  }

  // ----- when a report can be off every cycle -----

  /** Lists a set, beginning with `first` if it is a member. */
  lemma {:induction false} ListSet(m: set<string>, first: string) returns (s: seq<string>)
    ensures Lists(s, m)
    ensures first in m ==> s != [] && s[0] == first
  {
    if m == {} {
      s := [];
    } else {
      var x := if first in m then first else var y :| y in m; y;
      var rest := ListSet(m - {x}, first);
      s := [x] + rest;
    }
  }

  /** An order whose first two views are `v` and `c`, and in which the dependencies
      of `c` begin with `v`. */
  lemma {:induction false} OrderWith(g: Graph, v: string, c: string) returns (o: Order)
    requires v in g && c in g && v != c && v in g[c]
    ensures OrderOf(g, o) && |o.views| >= 2 && o.views[0] == v && o.views[1] == c
    ensures o.deps[c] != [] && o.deps[c][0] == v
  {
    var deps := map[];
    var todo := g.Keys;
    while todo != {}
      invariant todo <= g.Keys && deps.Keys == g.Keys - todo
      invariant forall w | w in deps :: Lists(deps[w], g[w]) && (w == c ==> deps[w] != [] && deps[w][0] == v)
    {
      var w :| w in todo;
      var ds := ListSet(g[w], v);
      deps, todo := deps[w := ds], todo - {w};
    }
    var rest := ListSet(g.Keys - {v}, c);
    o := Order([v] + rest, deps);
  }

  /** A search visits only what can be reached from its root. */
  ghost predicate Reaches(g: Graph, v: string, w: string) {
    exists p :: PathFrom(g, v, p) && p[|p| - 1] == w
  }

  lemma {:induction false} ParentOf(g: Graph, v: string, d: string, w: string)
    requires d in Deps(g, v) && Reaches(g, d, w)
    ensures Reaches(g, v, w)
  {
    var p :| PathFrom(g, d, p) && p[|p| - 1] == w;
    ConsPath(g, v, d, p);
    assert ([v] + p)[|[v] + p| - 1] == w;
  }

  lemma {:induction false} SearchVisits(g: Graph, o: Order, v: string, visited: set<string>, stack: set<string>, w: string)
    requires OrderOf(g, o) && v in Mentioned(g) && v !in visited
    requires w in Search(g, o, v, visited, stack).visited && w !in visited
    ensures Reaches(g, v, w)
    decreases Mentioned(g) - visited, 0
  {
    NextLists(g, o, v);
    if w == v {
      assert PathFrom(g, v, [v]);
    } else {
      EachVisits(g, o, v, Next(o, v), visited + {v}, stack + {v}, w);
    }
  }

  lemma {:induction false} EachVisits(
    g: Graph, o: Order, v: string, ds: seq<string>, visited: set<string>, stack: set<string>, w: string)
    requires OrderOf(g, o) && forall d | d in ds :: d in Mentioned(g) && d in Deps(g, v)
    requires w in SearchEach(g, o, ds, visited, stack).visited && w !in visited
    ensures Reaches(g, v, w)
    decreases Mentioned(g) - visited, 1 + |ds|
  {
    if ds[0] in visited {
      EachVisits(g, o, v, ds[1..], visited, stack, w);
    } else {
      var r := Search(g, o, ds[0], visited, stack);
      if w in r.visited {
        SearchVisits(g, o, ds[0], visited, stack, w);
        ParentOf(g, v, ds[0], w);
      } else {
        EachVisits(g, o, v, ds[1..], r.visited, r.stack, w);
      }
    }
  }

  /** A report leaves the root on the stack; no report leaves the stack as it was. */
  lemma {:induction false} SearchStack(g: Graph, o: Order, v: string, visited: set<string>, stack: set<string>)
    requires OrderOf(g, o) && v in Mentioned(g) && v !in visited && stack <= visited
    ensures var r := Search(g, o, v, visited, stack);
      if r.cycle.Some? then stack + {v} <= r.stack else r.stack == stack
    decreases Mentioned(g) - visited, 0
  {
    NextLists(g, o, v);
    EachStack(g, o, Next(o, v), visited + {v}, stack + {v});
    assert (stack + {v}) - {v} == stack;
  }

  lemma {:induction false} EachStack(g: Graph, o: Order, ds: seq<string>, visited: set<string>, stack: set<string>)
    requires OrderOf(g, o) && (forall d | d in ds :: d in Mentioned(g)) && stack <= visited
    ensures var r := SearchEach(g, o, ds, visited, stack);
      if r.cycle.Some? then stack <= r.stack else r.stack == stack
    decreases Mentioned(g) - visited, 1 + |ds|
  {
    if ds != [] && ds[0] !in visited {
      SearchStack(g, o, ds[0], visited, stack);
      var r := Search(g, o, ds[0], visited, stack);
      if r.cycle.None? { EachStack(g, o, ds[1..], r.visited, r.stack); }
    } else if ds != [] && ds[0] !in stack {
      EachStack(g, o, ds[1..], visited, stack);
    }
  }

  lemma {:induction false} NumberedReachNoCycle(g: Graph, rank: map<string, nat>, bound: nat, v: string)
    requires Ranked(g, rank, bound) && v in rank
    ensures !CycleReachable(g, v)
  {
    if CycleReachable(g, v) {
      var p, q :| PathFrom(g, v, p) && Cycle(g, q) && q[0] == p[|p| - 1];
      RankFalls(g, rank, bound, p, |p| - 1);
      RankFalls(g, rank, bound, q, |q| - 1);
    }
  }

  /** The first search reports whenever its root leads to a cycle. */
  lemma {:induction false} FirstSearchReports(g: Graph, o: Order, v: string)
    requires OrderOf(g, o) && v in Mentioned(g) && CycleReachable(g, v)
    ensures Search(g, o, v, {}, {}).cycle.Some?
  {
    assert Sane(g, v, {}, {}, [], map[], 0);
    var rank, bound := SearchSound(g, o, v, {}, {}, [], map[], 0);
    if Search(g, o, v, {}, {}).cycle.None? { NumberedReachNoCycle(g, rank, bound, v); }
  }

  /** A dependent of `v` that can be reached from `v` would put `v` on a cycle. */
  lemma {:induction false} NoWayBack(g: Graph, v: string, c: string)
    requires v in Deps(g, c) && Reaches(g, v, c)
    ensures OnCycle(g, v)
  {
    var p :| PathFrom(g, v, p) && p[|p| - 1] == c;
    var q := p + [v];
    forall i | 0 <= i < |q| - 1 ensures q[i + 1] in Deps(g, q[i]) {
      if i < |p| - 1 { assert p[i + 1] in Deps(g, p[i]); }
    }
    assert Cycle(g, q) && q[0] == v;
  }

  lemma {:induction false} LeadsSomewhere(g: Graph, v: string)
    requires CycleReachable(g, v)
    ensures v in g
  {
    var p, q :| PathFrom(g, v, p) && Cycle(g, q) && q[0] == p[|p| - 1];
    if |p| == 1 { assert q[0 + 1] in Deps(g, q[0]); } else { assert p[0 + 1] in Deps(g, p[0]); }
  }

  /** A view whose first dependency is a leftover reports that dependency. */
  lemma {:induction false} LeftoverIsReported(g: Graph, o: Order, v: string, c: string, visited: set<string>, stack: set<string>)
    requires OrderOf(g, o) && c in g && c !in visited && v in visited && v in stack
    requires o.deps[c] != [] && o.deps[c][0] == v
    ensures Search(g, o, c, visited, stack).cycle == Some(v)
  {
    NextLists(g, o, c);
  }

  lemma {:induction false} ReportsStay(g: Graph, o: Order, i: nat, j: nat, c: string)
    requires OrderOf(g, o) && i <= j <= |o.views| && c in After(g, o, i).reports
    ensures c in After(g, o, j).reports
    decreases j
  {
    if i != j {
      ReportsStay(g, o, i, j - 1, c);
      assert o.views[j - 1] in o.views;
    }
  }

  lemma {:induction false} SecondReport(g: Graph, o: Order, v: string, c: string, first: Outcome)
    requires OrderOf(g, o) && |o.views| >= 2 && o.views[0] == v && o.views[1] == c && v in Mentioned(g) && c in Mentioned(g)
    requires first == Search(g, o, v, {}, {}) && first.cycle.Some? && c !in first.visited
    requires Search(g, o, c, first.visited, first.stack).cycle == Some(v)
    ensures v in AllReports(g, o)
  {
    assert After(g, o, 0) == Progress({}, {}, []);
    assert After(g, o, 1) == Progress(first.visited, first.stack, [first.cycle.value]);
    assert After(g, o, 2).reports == [first.cycle.value] + [v];
    ReportsStay(g, o, 2, |o.views|, v);
  }

  /** Searching a misleading view first and its dependent next reports the view. */
  lemma {:induction false} MisleadingIsReported(g: Graph, v: string) returns (o: Order)
    requires Misleading(g, v)
    ensures OrderOf(g, o) && v in AllReports(g, o)
  {
    var c :| v in Deps(g, c);
    LeadsSomewhere(g, v);
    if v == c { assert PathFrom(g, v, [v]); NoWayBack(g, v, c); }
    o := OrderWith(g, v, c);
    var first := Search(g, o, v, {}, {});
    FirstSearchReports(g, o, v);
    SearchStack(g, o, v, {}, {});
    if c in first.visited { SearchVisits(g, o, v, {}, {}, c); NoWayBack(g, v, c); }
    LeftoverIsReported(g, o, v, c, first.visited, first.stack);
    SecondReport(g, o, v, c, first);
  }

  /** The order `o` makes the search report `c`, which lies on no cycle. */
  ghost predicate SpuriouslyReported(g: Graph, o: Order, c: string) {
    OrderOf(g, o) && c in AllReports(g, o) && !OnCycle(g, c)
  }

  /** Some order reports a view that lies on no cycle, exactly when the graph has
      a view off every cycle that has a dependent and leads to a cycle. */
  lemma {:induction false} SpuriousReportIff(g: Graph)
    ensures (exists o, c :: SpuriouslyReported(g, o, c)) <==> (exists v :: Misleading(g, v))
  {
    if v :| Misleading(g, v) {
      var o := MisleadingIsReported(g, v);
      assert SpuriouslyReported(g, o, v);
    }
    if o, c :| SpuriouslyReported(g, o, c) {
      ReportsMean(g, o);
      assert Misleading(g, c);
    }
  }

  /** Three views: `a` on `b`, `b` on itself, `c` on `a`. */
  ghost function Example(a: string, b: string, c: string): Graph {
    map[a := {b}, b := {b}, c := {a}]
  }

  ghost function ExampleOrder(a: string, b: string, c: string): Order {
    Order([a, b, c], map[a := [b], b := [b], c := [a]])
  }

  lemma {:induction false} ExampleIsOrdered(a: string, b: string, c: string)
    requires a != b && b != c && a != c
    ensures OrderOf(Example(a, b, c), ExampleOrder(a, b, c))
    ensures {a, b, c} <= Mentioned(Example(a, b, c))
  {
    var g, o := Example(a, b, c), ExampleOrder(a, b, c);
    assert g.Keys == {a, b, c} && o.deps.Keys == {a, b, c};
    assert Lists(o.views, g.Keys) && Lists([b], {b}) && Lists([a], {a});
  }

  lemma {:induction false} ExampleSearches(a: string, b: string, c: string, g: Graph, o: Order)
    requires a != b && b != c && a != c && g == Example(a, b, c) && o == ExampleOrder(a, b, c)
    ensures OrderOf(g, o) && a in Mentioned(g) && c in Mentioned(g)
    ensures Search(g, o, a, {}, {}) == Outcome(Some(b), {a, b}, {a, b})
    ensures Search(g, o, c, {a, b}, {a, b}) == Outcome(Some(a), {a, b, c}, {a, b, c})
  {
    ExampleIsOrdered(a, b, c);
    var first := Outcome(Some(b), {a, b}, {a, b});
    assert SearchEach(g, o, [b], {a, b}, {a, b}) == first;
    assert {a} + {b} == {a, b};
    assert Search(g, o, b, {a}, {a}) == first;
    assert {} + {a} == {a};
    assert SearchEach(g, o, [b], {a}, {a}) == first;
    assert {a, b} + {c} == {a, b, c};
    assert SearchEach(g, o, [a], {a, b, c}, {a, b, c}) == Outcome(Some(a), {a, b, c}, {a, b, c});
  }

  lemma {:induction false} ExampleReports(a: string, b: string, c: string, g: Graph, o: Order)
    requires a != b && b != c && a != c && g == Example(a, b, c) && o == ExampleOrder(a, b, c)
    ensures OrderOf(g, o) && AllReports(g, o) == [b, a]
  {
    ExampleSearches(a, b, c, g, o);
    assert After(g, o, 0) == Progress({}, {}, []);
    assert o.views[0] == a && o.views[1] == b && o.views[2] == c;
    assert After(g, o, 1) == Progress({a, b}, {a, b}, [b]);
    assert After(g, o, 2) == After(g, o, 1);
    assert After(g, o, 3).reports == [b] + [a];
  }

  lemma {:induction false} NeverBack(g: Graph, a: string, b: string, p: seq<string>, i: nat)
    requires Path(g, p) && 1 <= i < |p| && p[0] == a && Deps(g, a) == {b} && Deps(g, b) == {b}
    ensures p[i] == b
  {
    if i > 1 { NeverBack(g, a, b, p, i - 1); }
    assert p[(i - 1) + 1] in Deps(g, p[i - 1]);
  }

  /** Searched in the order `a`, `b`, `c`, the second report, `a`, lies on no cycle. */
  lemma {:induction false} SpuriousReport(a: string, b: string, c: string)
    requires a != b && b != c && a != c
    ensures OrderOf(Example(a, b, c), ExampleOrder(a, b, c))
    ensures AllReports(Example(a, b, c), ExampleOrder(a, b, c)) == [b, a] && !OnCycle(Example(a, b, c), a)
  {
    var g := Example(a, b, c);
    ExampleReports(a, b, c, g, ExampleOrder(a, b, c));
    if OnCycle(g, a) {
      var p :| Cycle(g, p) && p[0] == a;
      NeverBack(g, a, b, p, |p| - 1);
    }
  }

  // ----- dependency depth -----

  /** A path that ends where it has been before, or in `visited`. */
  ghost predicate Revisits(g: Graph, v: string, visited: set<string>, p: seq<string>) {
    PathFrom(g, v, p) && (p[|p| - 1] in visited || p[|p| - 1] in p[..|p| - 1])
  }

  lemma {:induction false} ConsRevisits(g: Graph, v: string, d: string, visited: set<string>, p: seq<string>)
    requires Revisits(g, d, visited + {v}, p) && d in Deps(g, v)
    ensures Revisits(g, v, visited, [v] + p)
  {
    ConsPath(g, v, d, p);
    var q := [v] + p;
    assert q[|q| - 1] == p[|p| - 1] && q[..|q| - 1] == [v] + p[..|p| - 1];
  }

  lemma {:induction false} TailRevisits(g: Graph, v: string, visited: set<string>, p: seq<string>)
    requires Revisits(g, v, visited, p) && v !in visited
    ensures |p| >= 2 && p[1] in Deps(g, v) && Revisits(g, p[1], visited + {v}, p[1..])
  {
    TailPath(g, v, p);
    var q := p[1..];
    assert p[..|p| - 1] == [v] + q[..|q| - 1] && q[|q| - 1] == p[|p| - 1];
  }

  /** All paths from the views in `done` stay clear of `visited`, never return to
      themselves, and have at most `max` views. */
  ghost predicate Explored(g: Graph, done: set<string>, visited: set<string>, max: nat) {
    forall d, p | d in done && PathFrom(g, d, p) :: |p| <= max && !Revisits(g, d, visited, p)
  }

  lemma {:induction false} ExploredParent(g: Graph, v: string, visited: set<string>, max: nat)
    requires Explored(g, Deps(g, v), visited + {v}, max) && v !in visited
    ensures Explored(g, {v}, visited, max + 1)
  {
    forall p | PathFrom(g, v, p) ensures |p| <= max + 1 && !Revisits(g, v, visited, p) {
      if |p| >= 2 { TailPath(g, v, p); }
      if Revisits(g, v, visited, p) { TailRevisits(g, v, visited, p); }
    }
  }

  /** Depth of `v`, with the views on the current path in `visited`. Failure
      comes with a path that returns to itself or to the current path; success
      means there is none, and the depth is the length of the longest path. */
  method CalculateDepth(g: Graph, v: string, visited: set<string>, ghost all: set<string>)
    returns (depth: Option<nat>, visited': set<string>, ghost chain: seq<string>)
    requires v in all && Mentioned(g) <= all
    ensures depth.None? ==> Revisits(g, v, visited, chain)
    ensures depth.Some? ==> visited' == visited && Explored(g, {v}, visited, depth.value)
    ensures depth.Some? ==> PathFrom(g, v, chain) && |chain| == depth.value
    decreases all - visited
  {
    if v in visited { return None, visited, [v]; }
    visited', chain := visited + {v}, [v];
    var max: nat := 0;
    var left := Deps(g, v);
    while left != {}
      invariant left <= Deps(g, v) && visited' == visited + {v}
      invariant Explored(g, Deps(g, v) - left, visited', max)
      invariant PathFrom(g, v, chain) && |chain| == max + 1
      decreases |left|
    {
      var d :| d in left;
      assert d in Mentioned(g);
      ghost var path;
      var inner;
      inner, visited', path := CalculateDepth(g, d, visited', all);
      if inner.None? {
        ConsRevisits(g, v, d, visited, path);
        return None, visited', [v] + path;
      }
      if inner.value > max { ConsPath(g, v, d, path); chain := [v] + path; }
      max := if inner.value > max then inner.value else max;
      left := left - {d};
    }
    ExploredParent(g, v, visited, max);
    return Some(max + 1), visited' - {v}, chain;
  }

  lemma {:induction false} RevisitMeansCycle(g: Graph, v: string, p: seq<string>)
    requires Revisits(g, v, {}, p)
    ensures CycleReachable(g, v)
  {
    var n := |p| - 1;
    var i :| 0 <= i < n && p[i] == p[n];
    var q := p[i..];
    assert Cycle(g, q) by {
      forall k | 0 <= k < |q| - 1 ensures q[k + 1] in Deps(g, q[k]) { assert p[(i + k) + 1] in Deps(g, p[i + k]); }
    }
    assert PathFrom(g, v, p[..i + 1]) && q[0] == p[..i + 1][i];
  }

  lemma {:induction false} CycleMeansRevisit(g: Graph, v: string, p: seq<string>, q: seq<string>)
    requires PathFrom(g, v, p) && Cycle(g, q) && q[0] == p[|p| - 1]
    ensures Revisits(g, v, {}, p + q[1..])
  {
    var r := p + q[1..];
    forall k | 0 <= k < |r| - 1 ensures r[k + 1] in Deps(g, r[k]) {
      if k < |p| - 1 {
        assert p[k + 1] in Deps(g, p[k]);
      } else {
        var j := k - (|p| - 1);
        assert q[j + 1] in Deps(g, q[j]);
      }
    }
    assert r[|p| - 1] == r[|r| - 1] && r[..|r| - 1][|p| - 1] == r[|p| - 1];
  }

  /** The depth of a view fails exactly when a cycle can be reached from it, and
      is otherwise the number of views on the longest dependency chain. */
  method CalculateDependencyDepth(g: Graph, v: string) returns (depth: Option<nat>)
    ensures depth.None? <==> CycleReachable(g, v)
    ensures depth.Some? ==> (exists p :: PathFrom(g, v, p) && |p| == depth.value)
    ensures depth.Some? ==> forall p | PathFrom(g, v, p) :: |p| <= depth.value
  {
    var visited;
    ghost var chain;
    depth, visited, chain := CalculateDepth(g, v, {}, Mentioned(g) + {v});
    if depth.None? { RevisitMeansCycle(g, v, chain); }
    forall p, q | PathFrom(g, v, p) && Cycle(g, q) && q[0] == p[|p| - 1] ensures depth.None? {
      CycleMeansRevisit(g, v, p, q);
    }
  }
}
