/** The view manager: a catalogue of plain and materialized views, the two maps
    between tables and the views that read them, and the staleness protocol.
    Operations are atomic; the time of day is a parameter. */
module ViewManager {
  import opened Values

  datatype RefreshStatus = Fresh | Stale | Refreshing | Failed(message: string)

  datatype ViewDef = ViewDef(id: nat, materialized: bool, dependencies: seq<string>, lastRefreshed: Option<int>, modifiedAt: int)

  datatype RefreshSchedule = RefreshSchedule(interval: nat, nextRefresh: int, lastRefresh: Option<int>, active: bool)

  datatype Change = Change(table: string, kind: string, time: int, rows: nat)

  datatype Error = AlreadyExists | NotFound | InvalidOperation | DependentObjects

  datatype Result<T> = Ok(value: T) | Err(error: Error)

  const CHANGE_LOG_LIMIT: nat := 1000

  // ----- the history of a run -----

  datatype Event = Created(view: string) | Dropped(view: string) | Refreshed(view: string, withData: bool) | Changed(change: Change)

  ghost predicate Refreshes(e: Event, view: string) {
    e.Refreshed? && e.view == view
  }

  /** The view was refreshed since its creation, with or without data, and no
      change to any of the tables was recorded after that refresh. */
  ghost predicate UpToDate(history: seq<Event>, view: string, tables: set<string>) {
    history != [] &&
    var last := history[|history| - 1];
    || Refreshes(last, view)
    || (&& last != Created(view) && last != Dropped(view)
        && !(last.Changed? && last.change.table in tables)
        && UpToDate(history[..|history| - 1], view, tables))
  }

  /** Position `i` refreshes the view, and nothing after it makes that void. */
  ghost predicate RefreshHolds(history: seq<Event>, view: string, tables: set<string>, i: int) {
    && 0 <= i < |history| && Refreshes(history[i], view)
    && forall j | i < j < |history| ::
         && history[j] != Created(view) && history[j] != Dropped(view)
         && (history[j].Changed? ==> history[j].change.table !in tables)
  }

  /** The same, read off the positions in the history. */
  lemma {:induction false} UpToDateMeans(history: seq<Event>, view: string, tables: set<string>)
    ensures UpToDate(history, view, tables) <==> exists i :: RefreshHolds(history, view, tables, i)
  {
    if history != [] {
      var n := |history| - 1;
      var before := history[..n];
      UpToDateMeans(before, view, tables);
      if i :| RefreshHolds(before, view, tables, i) && UpToDate(history, view, tables) && !Refreshes(history[n], view) {
        assert RefreshHolds(history, view, tables, i);
      }
      if Refreshes(history[n], view) { assert RefreshHolds(history, view, tables, n); }
      if i :| RefreshHolds(history, view, tables, i) && i < n { assert RefreshHolds(before, view, tables, i); }
    }
  }

  /** The refresh that holds was one that loads data. */
  ghost predicate Loaded(history: seq<Event>, view: string, tables: set<string>) {
    exists i :: RefreshHolds(history, view, tables, i) && history[i].withData
  }

  /** A refresh without data also counts as one, so a view that is up to date need
      not hold the data of its tables; it does if no such refresh was asked for. */
  lemma {:induction false} UpToDateIsLoaded(history: seq<Event>, view: string, tables: set<string>)
    ensures Loaded(history, view, tables) ==> UpToDate(history, view, tables)
    ensures Refreshed(view, false) !in history ==> (UpToDate(history, view, tables) <==> Loaded(history, view, tables))
  {
    UpToDateMeans(history, view, tables);
    if i :| RefreshHolds(history, view, tables, i) && !history[i].withData {
      assert history[i] == Refreshed(view, false);
    }
  }

  lemma {:induction false} RefreshWithoutData(change: Change)
    ensures var history := [Created("v"), Refreshed("v", true), Changed(change), Refreshed("v", false)];
      UpToDate(history, "v", {change.table}) && !Loaded(history, "v", {change.table})
  {
    var history := [Created("v"), Refreshed("v", true), Changed(change), Refreshed("v", false)];
    assert Refreshes(history[3], "v");
    assert history[2] == Changed(change) && forall i | 0 <= i < 4 && history[i] == Refreshed("v", true) :: i == 1;
  }

  lemma {:induction false} UpToDateStep(history: seq<Event>, e: Event, view: string, tables: set<string>)
    ensures UpToDate(history + [e], view, tables) <==>
      || Refreshes(e, view)
      || (&& e != Created(view) && e != Dropped(view) && !(e.Changed? && e.change.table in tables)
          && UpToDate(history, view, tables))
  {
    assert (history + [e])[..|history|] == history;
  }

  ghost function ChangesIn(history: seq<Event>): seq<Change> {
    if history == [] then []
    else
      var rest := ChangesIn(history[..|history| - 1]);
      if history[|history| - 1].Changed? then rest + [history[|history| - 1].change] else rest
  }

  lemma {:induction false} ChangesStep(history: seq<Event>, e: Event)
    ensures ChangesIn(history + [e]) == if e.Changed? then ChangesIn(history) + [e.change] else ChangesIn(history)
  {
    assert (history + [e])[..|history|] == history;
  }

  function Latest<T>(s: seq<T>, n: nat): seq<T> {
    if |s| <= n then s else s[|s| - n..]
  }

  // ----- the dependency maps -----

  type Links = map<string, set<string>>

  function Linked(m: Links, k: string): set<string> {
    if k in m then m[k] else {}
  }

  ghost predicate NoEmptyEntries(m: Links) {
    forall k | k in m :: m[k] != {}
  }

  ghost predicate Inverse(t2v: Links, v2t: Links) {
    forall t, v :: v in Linked(t2v, t) <==> t in Linked(v2t, v)
  }

  function NamesIn(names: seq<string>): set<string> {
    set n | n in names
  }

  /** Takes `view` out of the entry of every table, dropping emptied entries. */
  method Unlink(t2v: Links, tables: set<string>, view: string) returns (t2v': Links)
    requires NoEmptyEntries(t2v)
    ensures NoEmptyEntries(t2v')
    ensures forall t :: Linked(t2v', t) == if t in tables then Linked(t2v, t) - {view} else Linked(t2v, t)
  {
    t2v' := t2v;
    var left := tables;
    while left != {}
      invariant left <= tables && NoEmptyEntries(t2v')
      invariant forall t :: Linked(t2v', t) == if t in tables && t !in left then Linked(t2v, t) - {view} else Linked(t2v, t)
    {
      var table :| table in left;
      left := left - {table};
      if table in t2v' {
        var rest := t2v'[table] - {view};
        t2v' := if rest == {} then t2v' - {table} else t2v'[table := rest];
      }
    }
  }

  /** Adds `view` to the entry of every table it depends on. */
  method Link(t2v: Links, dependencies: seq<string>, view: string) returns (t2v': Links, tables: set<string>)
    requires NoEmptyEntries(t2v)
    ensures NoEmptyEntries(t2v') && tables == NamesIn(dependencies)
    ensures forall t :: Linked(t2v', t) == if t in tables then Linked(t2v, t) + {view} else Linked(t2v, t)
  {
    t2v', tables := t2v, {};
    for i := 0 to |dependencies|
      invariant NoEmptyEntries(t2v') && forall t :: t in tables <==> t in dependencies[..i]
      invariant forall t :: Linked(t2v', t) == if t in tables then Linked(t2v, t) + {view} else Linked(t2v, t)
    {
      var table := dependencies[i];
      tables := tables + {table};
      t2v' := t2v'[table := Linked(t2v', table) + {view}];
      assert dependencies[..i + 1] == dependencies[..i] + [table];
    }
    assert dependencies[..|dependencies|] == dependencies;
  }

  lemma {:induction false} InverseAfterUnlink(t2v: Links, v2t: Links, view: string, t2v': Links)
    requires Inverse(t2v, v2t)
    requires forall t :: Linked(t2v', t) == if t in Linked(v2t, view) then Linked(t2v, t) - {view} else Linked(t2v, t)
    ensures Inverse(t2v', v2t - {view})
  {
    forall t, v ensures v in Linked(t2v', t) <==> t in Linked(v2t - {view}, v) {
      assert v in Linked(t2v, t) <==> t in Linked(v2t, v);
    }
  }

  lemma {:induction false} InverseAfterLink(t2v: Links, v2t: Links, view: string, t2v': Links, tables: set<string>)
    requires Inverse(t2v, v2t) && view !in v2t
    requires forall t :: Linked(t2v', t) == if t in tables then Linked(t2v, t) + {view} else Linked(t2v, t)
    ensures Inverse(t2v', v2t[view := tables])
  {
    forall t, v ensures v in Linked(t2v', t) <==> t in Linked(v2t[view := tables], v) {
      assert v in Linked(t2v, t) <==> t in Linked(v2t, v);
    }
  }

  // ----- invariants over the whole state -----

  type Views = map<string, ViewDef>
  type Statuses = map<string, RefreshStatus>
  type Schedules = map<string, RefreshSchedule>

  ghost predicate UniqueIds(views: Views, nextViewId: nat) {
    && (forall v | v in views :: views[v].id < nextViewId)
    && (forall v, w | v in views && w in views && v != w :: views[v].id != views[w].id)
  }

  lemma {:induction false} SameIds(views: Views, views': Views, n: nat)
    requires UniqueIds(views, n) && views'.Keys == views.Keys && forall v | v in views :: views'[v].id == views[v].id
    ensures UniqueIds(views', n)
  {
  }

  lemma {:induction false} NewId(views: Views, name: string, def: ViewDef)
    requires UniqueIds(views, def.id) && name !in views
    ensures UniqueIds(views[name := def], def.id + 1)
  {
  }

  /** All fields of the manager at one moment, and the run that led there. */
  datatype State = State(views: Views, nextViewId: nat, t2v: Links, v2t: Links, log: seq<Change>,
                         schedules: Schedules, status: Statuses, history: seq<Event>)
  {
    /** The two maps are inverse relations over exactly the existing views. */
    ghost predicate Consistent() {
      && v2t.Keys == views.Keys && status.Keys == views.Keys
      && Inverse(t2v, v2t) && NoEmptyEntries(t2v)
      && (forall v | v in views :: v2t[v] == NamesIn(views[v].dependencies))
    }

    /** No view is ever observed Refreshing or Failed, and a materialized view
        that says Fresh is up to date with every table it reads. */
    ghost predicate Honest()
      requires Consistent()
    {
      forall v | v in views ::
        && (status[v] == Fresh || status[v] == Stale)
        && (views[v].materialized && status[v] == Fresh ==> UpToDate(history, v, v2t[v]))
    }

    ghost predicate Valid() {
      && Consistent() && Honest() && UniqueIds(views, nextViewId)
      && (forall v | v in schedules :: v in views && views[v].materialized)
      && log == Latest(ChangesIn(history), CHANGE_LOG_LIMIT)
    }
  }

  lemma {:induction false} ConsistentStep(s: State, next: State)
    requires s.Consistent() && next.t2v == s.t2v && next.v2t == s.v2t
    requires next.views.Keys == s.views.Keys && next.status.Keys == s.status.Keys
    requires forall v | v in s.views :: next.views[v].dependencies == s.views[v].dependencies
    ensures next.Consistent()
  {
  }

  /** Event `e` leaves `v` up to date if it was, or makes it so. */
  ghost predicate StaysUpToDate(s: State, e: Event, v: string, tables: set<string>)
    requires s.Consistent()
  {
    || Refreshes(e, v)
    || (&& v in s.views && s.views[v].materialized && s.status[v] == Fresh && s.v2t[v] == tables
        && e != Created(v) && e != Dropped(v) && !(e.Changed? && e.change.table in tables))
  }

  lemma {:induction false} HonestStep(s: State, next: State, e: Event)
    requires s.Consistent() && s.Honest() && next.Consistent() && next.history == s.history + [e]
    requires forall v | v in next.views :: next.status[v] == Fresh || next.status[v] == Stale
    requires forall v | v in next.views && next.views[v].materialized && next.status[v] == Fresh ::
               StaysUpToDate(s, e, v, next.v2t[v])
    ensures next.Honest()
  {
    forall v | v in next.views && next.views[v].materialized && next.status[v] == Fresh
      ensures UpToDate(next.history, v, next.v2t[v])
    {
      assert StaysUpToDate(s, e, v, next.v2t[v]);
      UpToDateStep(s.history, e, v, next.v2t[v]);
    }
  }

  lemma {:induction false} AfterCreate(s: State, name: string, def: ViewDef, t2v: Links) returns (next: State)
    requires s.Valid() && name !in s.views && def.id == s.nextViewId
    requires Inverse(t2v, s.v2t[name := NamesIn(def.dependencies)]) && NoEmptyEntries(t2v)
    ensures next.Valid()
    ensures next == s.(views := s.views[name := def], nextViewId := s.nextViewId + 1, t2v := t2v,
                       v2t := s.v2t[name := NamesIn(def.dependencies)],
                       status := s.status[name := if def.materialized then Stale else Fresh],
                       history := s.history + [Created(name)])
  {
    next := s.(views := s.views[name := def], nextViewId := s.nextViewId + 1, t2v := t2v,
               v2t := s.v2t[name := NamesIn(def.dependencies)],
               status := s.status[name := if def.materialized then Stale else Fresh],
               history := s.history + [Created(name)]);
    ChangesStep(s.history, Created(name));
    NewId(s.views, name, def);
    CreateConsistent(s, next, name, def);
    CreateHonest(s, next, name, def);
  }

  lemma {:induction false} CreateConsistent(s: State, next: State, name: string, def: ViewDef)
    requires s.Consistent() && name !in s.views
    requires next.views == s.views[name := def] && next.v2t == s.v2t[name := NamesIn(def.dependencies)]
    requires next.status.Keys == s.status.Keys + {name}
    requires Inverse(next.t2v, next.v2t) && NoEmptyEntries(next.t2v)
    ensures next.Consistent()
  {
    assert next.views.Keys == s.views.Keys + {name} && next.v2t.Keys == s.v2t.Keys + {name};
  }

  lemma {:induction false} CreateHonest(s: State, next: State, name: string, def: ViewDef)
    requires s.Consistent() && s.Honest() && name !in s.views && next.Consistent()
    requires next.views == s.views[name := def] && next.v2t == s.v2t[name := NamesIn(def.dependencies)]
    requires next.status == s.status[name := if def.materialized then Stale else Fresh]
    requires next.history == s.history + [Created(name)]
    ensures next.Honest()
  {
    forall v | v in next.views && next.views[v].materialized && next.status[v] == Fresh
      ensures StaysUpToDate(s, Created(name), v, next.v2t[v])
    {
      assert v != name;
    }
    HonestStep(s, next, Created(name));
  }

  lemma {:induction false} AfterDrop(s: State, name: string, t2v: Links) returns (next: State)
    requires s.Valid() && name in s.views && Inverse(t2v, s.v2t - {name}) && NoEmptyEntries(t2v)
    ensures next.Valid()
    ensures next == s.(views := s.views - {name}, t2v := t2v, v2t := s.v2t - {name}, schedules := s.schedules - {name},
                       status := s.status - {name}, history := s.history + [Dropped(name)])
  {
    next := s.(views := s.views - {name}, t2v := t2v, v2t := s.v2t - {name}, schedules := s.schedules - {name},
               status := s.status - {name}, history := s.history + [Dropped(name)]);
    DropHonest(s, next, name);
    ChangesStep(s.history, Dropped(name));
  }

  lemma {:induction false} DropHonest(s: State, next: State, name: string)
    requires s.Consistent() && s.Honest() && name in s.views
    requires next.views == s.views - {name} && next.v2t == s.v2t - {name} && next.status == s.status - {name}
    requires Inverse(next.t2v, next.v2t) && NoEmptyEntries(next.t2v) && next.history == s.history + [Dropped(name)]
    ensures next.Consistent() && next.Honest()
  {
    assert next.Consistent();
    HonestStep(s, next, Dropped(name));
  }

  function Touched(def: ViewDef, now: int): ViewDef {
    def.(lastRefreshed := Some(now), modifiedAt := now)
  }

  lemma {:induction false} AfterRefresh(s: State, name: string, withData: bool, now: int) returns (next: State)
    requires s.Valid() && name in s.views
    ensures next.Valid()
    ensures next == s.(views := s.views[name := Touched(s.views[name], now)], status := s.status[name := Fresh],
                       history := s.history + [Refreshed(name, withData)])
  {
    next := s.(views := s.views[name := Touched(s.views[name], now)], status := s.status[name := Fresh],
               history := s.history + [Refreshed(name, withData)]);
    AlikeIfRefreshed(s.views, name, Touched(s.views[name], now));
    RefreshConsistent(s, next, name);
    RefreshHonest(s, next, name, withData);
    SameIds(s.views, next.views, s.nextViewId);
    ChangesStep(s.history, Refreshed(name, withData));
  }

  /** The same views, up to when they were refreshed. */
  ghost predicate Alike(views: Views, views': Views) {
    && views'.Keys == views.Keys
    && forall v | v in views ::
      views'[v].id == views[v].id && views'[v].materialized == views[v].materialized && views'[v].dependencies == views[v].dependencies
  }

  lemma {:induction false} AlikeIfRefreshed(views: Views, name: string, def: ViewDef)
    requires name in views && def.id == views[name].id && def.materialized == views[name].materialized
    requires def.dependencies == views[name].dependencies
    ensures Alike(views, views[name := def])
  {
  }

  /** Refreshing keeps what does not depend on the contents of a view. */
  lemma {:induction false} RefreshConsistent(s: State, next: State, name: string)
    requires s.Consistent() && name in s.views && Alike(s.views, next.views) && next.status == s.status[name := Fresh]
    requires next.t2v == s.t2v && next.v2t == s.v2t
    ensures next.Consistent()
  {
    assert next.status.Keys == s.status.Keys;
    ConsistentStep(s, next);
  }

  lemma {:induction false} RefreshHonest(s: State, next: State, name: string, withData: bool)
    requires s.Consistent() && s.Honest() && next.Consistent() && next.history == s.history + [Refreshed(name, withData)]
    requires Alike(s.views, next.views) && next.v2t == s.v2t && name in s.views && next.status == s.status[name := Fresh]
    ensures next.Honest()
  {
    HonestStep(s, next, Refreshed(name, withData));
  }

  lemma {:induction false} AfterChange(s: State, c: Change, status: Statuses) returns (next: State)
    requires s.Valid() && status.Keys == s.status.Keys
    requires forall v | v in s.status :: status[v] == if v in Linked(s.t2v, c.table) then Stale else s.status[v]
    ensures next.Valid()
    ensures next == s.(log := Latest(s.log + [c], CHANGE_LOG_LIMIT), status := status, history := s.history + [Changed(c)])
    ensures forall v | v in s.views :: status[v] == if c.table in s.views[v].dependencies then Stale else s.status[v]
  {
    next := s.(log := Latest(s.log + [c], CHANGE_LOG_LIMIT), status := status, history := s.history + [Changed(c)]);
    ChangesStep(s.history, Changed(c));
    LatestStep(ChangesIn(s.history), c, CHANGE_LOG_LIMIT);
    forall v | v in s.views ensures v in Linked(s.t2v, c.table) <==> c.table in s.views[v].dependencies {
      assert v in Linked(s.t2v, c.table) <==> c.table in Linked(s.v2t, v);
    }
    ConsistentStep(s, next);
    HonestStep(s, next, Changed(c));
  }

  lemma {:induction false} LatestStep(s: seq<Change>, c: Change, n: nat)
    requires n > 0
    ensures Latest(Latest(s, n) + [c], n) == Latest(s + [c], n)
  {
  }

  function StaleIfLinked(t2v: Links, current: RefreshStatus, table: string, v: string): RefreshStatus {
    if v in Linked(t2v, table) && !current.Refreshing? then Stale else current
  }

  /** Marks every dependent of the table stale, unless it is being refreshed. */
  method MarkStale(t2v: Links, status: Statuses, table: string) returns (status': Statuses)
    ensures status'.Keys == status.Keys
    ensures forall v | v in status :: status'[v] == StaleIfLinked(t2v, status[v], table, v)
  {
    status' := status;
    var left := Linked(t2v, table);
    while left != {}
      invariant left <= Linked(t2v, table) && status'.Keys == status.Keys
      invariant forall v | v in status ::
        status'[v] == if v in left then status[v] else StaleIfLinked(t2v, status[v], table, v)
    {
      var view :| view in left;
      left := left - {view};
      if view in status' && (status'[view].Fresh? || status'[view].Failed?) {
        status' := status'[view := Stale];
      }
    }
  }

  /** Replaces the table links of `view` by those of its new dependencies. */
  method Relink(t2v: Links, v2t: Links, dependencies: seq<string>, view: string) returns (t2v': Links, tables: set<string>)
    requires Inverse(t2v, v2t) && NoEmptyEntries(t2v)
    ensures tables == NamesIn(dependencies) && NoEmptyEntries(t2v') && Inverse(t2v', v2t[view := tables])
  {
    var unlinked := Unlink(t2v, Linked(v2t, view), view);
    InverseAfterUnlink(t2v, v2t, view, unlinked);
    t2v', tables := Link(unlinked, dependencies, view);
    InverseAfterLink(unlinked, v2t - {view}, view, t2v', tables);
    assert (v2t - {view})[view := tables] == v2t[view := tables];
  }

  lemma {:induction false} OverwriteTwice(m: Statuses, k: string, a: RefreshStatus, b: RefreshStatus)
    ensures m[k := a][k := b] == m[k := b]
  {
  }

  /** The next refresh is due one interval from now. */
  function Rescheduled(schedule: RefreshSchedule, now: int): RefreshSchedule {
    schedule.(lastRefresh := Some(now), nextRefresh := now + schedule.interval)
  }

  ghost function MovedSchedule(schedules: Schedules, name: string, now: int): Schedules {
    if name in schedules then schedules[name := Rescheduled(schedules[name], now)] else schedules
  }

  ghost predicate TouchedViews(views: Views, after: Views, names: seq<string>, now: int) {
    && after.Keys == views.Keys
    && forall v | v in views :: after[v] == if v in names then Touched(views[v], now) else views[v]
  }

  ghost predicate FreshStatuses(status: Statuses, after: Statuses, names: seq<string>) {
    after.Keys == status.Keys && forall v | v in status :: after[v] == if v in names then Fresh else status[v]
  }

  ghost predicate MovedSchedules(schedules: Schedules, after: Schedules, names: seq<string>, now: int) {
    && after.Keys == schedules.Keys
    && forall v | v in schedules :: after[v] == if v in names then Rescheduled(schedules[v], now) else schedules[v]
  }

  ghost function LoadsOf(names: seq<string>): seq<Event> {
    seq(|names|, i requires 0 <= i < |names| => Refreshed(names[i], true))
  }

  /** `after` is `s` with exactly the named views refreshed, in that order, and
      the schedules they have moved one interval ahead. */
  ghost predicate RefreshedAll(s: State, after: State, names: seq<string>, now: int) {
    && TouchedViews(s.views, after.views, names, now) && FreshStatuses(s.status, after.status, names)
    && MovedSchedules(s.schedules, after.schedules, names, now) && after.history == s.history + LoadsOf(names)
  }

  lemma {:induction false} NothingRefreshed(s: State, now: int)
    ensures RefreshedAll(s, s, [], now)
  {
    assert LoadsOf([]) == [];
  }

  lemma {:induction false} TouchedStep(views: Views, after: Views, names: seq<string>, now: int, name: string)
    requires TouchedViews(views, after, names, now) && name in views
    ensures TouchedViews(views, after[name := Touched(after[name], now)], names + [name], now)
  {
  }

  lemma {:induction false} FreshStep(status: Statuses, after: Statuses, names: seq<string>, name: string)
    requires FreshStatuses(status, after, names) && name in status
    ensures FreshStatuses(status, after[name := Fresh], names + [name])
  {
  }

  lemma {:induction false} MovedStep(schedules: Schedules, after: Schedules, names: seq<string>, now: int, name: string)
    requires MovedSchedules(schedules, after, names, now)
    ensures MovedSchedules(schedules, MovedSchedule(after, name, now), names + [name], now)
  {
  }

  lemma {:induction false} LoadsStep(history: seq<Event>, names: seq<string>, name: string)
    ensures history + LoadsOf(names) + [Refreshed(name, true)] == history + LoadsOf(names + [name])
  {
    assert LoadsOf(names + [name]) == LoadsOf(names) + [Refreshed(name, true)];
  }

  ghost function RefreshedOne(s: State, name: string, now: int): State {
    s.(views := if name in s.views then s.views[name := Touched(s.views[name], now)] else s.views, status := s.status[name := Fresh],
       schedules := MovedSchedule(s.schedules, name, now),
       history := s.history + [Refreshed(name, true)])
  }

  lemma {:induction false} RefreshedStep(s: State, after: State, names: seq<string>, now: int, name: string)
    requires RefreshedAll(s, after, names, now) && name in s.views && name in s.status
    ensures RefreshedAll(s, RefreshedOne(after, name, now), names + [name], now)
  {
    TouchedStep(s.views, after.views, names, now, name);
    FreshStep(s.status, after.status, names, name);
    MovedStep(s.schedules, after.schedules, names, now, name);
    LoadsStep(s.history, names, name);
  }

  /** The state after the first `i` of the named views are refreshed in turn. */
  ghost function RefreshedTo(s: State, names: seq<string>, i: nat, now: int): State
    requires i <= |names|
  {
    if i == 0 then s else RefreshedOne(RefreshedTo(s, names, i - 1, now), names[i - 1], now)
  }

  lemma {:induction false} StillMaterialized(s: State, names: seq<string>, i: nat, now: int, v: string)
    requires i <= |names| && v in s.views && s.views[v].materialized
    ensures var after := RefreshedTo(s, names, i, now); v in after.views && after.views[v].materialized
  {
    if i != 0 { StillMaterialized(s, names, i - 1, now, v); }
  }

  lemma {:induction false} RefreshedToMeans(s: State, names: seq<string>, i: nat, now: int)
    requires i <= |names| && forall k | 0 <= k < |names| :: names[k] in s.views && names[k] in s.status
    ensures RefreshedAll(s, RefreshedTo(s, names, i, now), names[..i], now)
  {
    if i == 0 {
      NothingRefreshed(s, now);
    } else {
      RefreshedToMeans(s, names, i - 1, now);
      RefreshedStep(s, RefreshedTo(s, names, i - 1, now), names[..i - 1], now, names[i - 1]);
      assert names[..i] == names[..i - 1] + [names[i - 1]];
    }
  }

  class ViewManager {
    var views: Views
    var nextViewId: nat
    var tableToViews: Links
    var viewToTables: Links
    var changeLog: seq<Change>
    var schedules: Schedules
    var status: Statuses
    ghost var history: seq<Event>

    ghost function Now(): State
      reads this
    {
      State(views, nextViewId, tableToViews, viewToTables, changeLog, schedules, status, history)
    }

    ghost predicate Valid()
      reads this
    {
      Now().Valid()
    }

    constructor ()
      ensures Valid() && views == map[] && history == []
    {
      views, nextViewId := map[], 1;
      tableToViews, viewToTables := map[], map[];
      changeLog, schedules, status := [], map[], map[];
      history := [];
    }

    method CreateView(name: string, dependencies: seq<string>, materialized: bool, now: int) returns (r: Result<nat>)
      requires Valid()
      modifies this
      ensures Valid()
      ensures r.Ok? <==> name !in old(views)
      ensures r.Err? ==> r.error == AlreadyExists && Now() == old(Now())
      ensures r.Ok? ==>
        && r.value == old(nextViewId)
        && views == old(views)[name := ViewDef(r.value, materialized, dependencies, if materialized then None else Some(now), now)]
        && status == old(status)[name := if materialized then Stale else Fresh]
        && schedules == old(schedules) && changeLog == old(changeLog)
        && history == old(history) + [Created(name)]
    {
      if name in views { return Err(AlreadyExists); }
      var id := nextViewId;
      Register(name, ViewDef(id, materialized, dependencies, if materialized then None else Some(now), now));
      return Ok(id);
    }

    method Register(name: string, def: ViewDef)
      requires Valid() && name !in views && def.id == nextViewId
      modifies this
      ensures Valid()
      ensures views == old(views)[name := def] && status == old(status)[name := if def.materialized then Stale else Fresh]
      ensures schedules == old(schedules) && changeLog == old(changeLog) && history == old(history) + [Created(name)]
    {
      var linked, tables := Relink(tableToViews, viewToTables, def.dependencies, name);
      ghost var next := AfterCreate(Now(), name, def, linked);
      nextViewId := nextViewId + 1;
      Assign(views[name := def], linked, viewToTables[name := tables], schedules,
             status[name := if def.materialized then Stale else Fresh], history + [Created(name)]);
      assert Now() == next;
    }

    /** Writes the fields that creating and dropping change. */
    method Assign(views': Views, t2v: Links, v2t: Links, schedules': Schedules, status': Statuses, ghost history': seq<Event>)
      modifies this`views, this`tableToViews, this`viewToTables, this`schedules, this`status, this`history
      ensures Now() == State(views', nextViewId, t2v, v2t, changeLog, schedules', status', history')
    {
      tableToViews, viewToTables := t2v, v2t;
      status, schedules := status', schedules';
      views, history := views', history';
    }

    /** Dropping without CASCADE is refused while another view lists this one;
        CASCADE skips that check but drops nothing else. */
    method DropView(name: string, cascade: bool) returns (r: Result<()>)
      requires Valid()
      modifies this
      ensures Valid()
      ensures r.Ok? <==>
        name in old(views) && (cascade || forall v | v in old(views) && v != name :: name !in old(views)[v].dependencies)
      ensures r.Err? ==> Now() == old(Now()) && r.error == if name in old(views) then DependentObjects else NotFound
      ensures r.Ok? ==>
        && views == old(views) - {name} && status == old(status) - {name} && schedules == old(schedules) - {name}
        && history == old(history) + [Dropped(name)] && changeLog == old(changeLog)
    {
      if name !in views { return Err(NotFound); }
      if !cascade {
        var blocked := HasDependents(views, name);
        if blocked { return Err(DependentObjects); }
      }
      Remove(name);
      return Ok(());
    }

    method Remove(name: string)
      requires Valid() && name in views
      modifies this
      ensures Valid()
      ensures views == old(views) - {name} && status == old(status) - {name} && schedules == old(schedules) - {name}
      ensures history == old(history) + [Dropped(name)] && changeLog == old(changeLog)
    {
      var unlinked := Unlink(tableToViews, Linked(viewToTables, name), name);
      InverseAfterUnlink(tableToViews, viewToTables, name, unlinked);
      ghost var next := AfterDrop(Now(), name, unlinked);
      Assign(views - {name}, unlinked, viewToTables - {name}, schedules - {name}, status - {name}, history + [Dropped(name)]);
      assert Now() == next;
    }

    /** The view becomes fresh, as of now, whether or not data is asked for. */
    method RefreshMaterializedView(name: string, withData: bool, now: int) returns (r: Result<()>)
      requires Valid()
      modifies this`views, this`status, this`history
      ensures Valid()
      ensures r.Ok? <==> name in old(views) && old(views)[name].materialized
      ensures r.Err? ==> Now() == old(Now()) && r.error == if name in old(views) then InvalidOperation else NotFound
      ensures r.Ok? ==>
        Now() == old(Now()).(views := old(views)[name := Touched(old(views)[name], now)],
                             status := old(status)[name := Fresh], history := old(history) + [Refreshed(name, withData)])
      ensures r.Ok? ==> name in views && views[name].lastRefreshed == Some(now) && views[name].modifiedAt == now
    {
      if name !in views { return Err(NotFound); }
      if !views[name].materialized { return Err(InvalidOperation); }
      ghost var next := AfterRefresh(Now(), name, withData, now);
      WriteRefresh(name, withData, now);
      assert Now() == next;
      return Ok(());
    }

    /** Writes the fields that refreshing changes, passing through Refreshing. */
    method WriteRefresh(name: string, withData: bool, now: int)
      requires name in views
      modifies this`views, this`status, this`history
      ensures Now() == old(Now()).(views := old(views)[name := Touched(old(views)[name], now)],
                                   status := old(status)[name := Fresh], history := old(history) + [Refreshed(name, withData)])
    {
      views := views[name := Touched(views[name], now)];
      status := status[name := Refreshing];
      if withData {
        status := status[name := Fresh];
      } else {
        status := status[name := Fresh];
      }
      OverwriteTwice(old(status), name, Refreshing, Fresh);
      history := history + [Refreshed(name, withData)];
    }

    method ScheduleRefresh(name: string, interval: nat, now: int) returns (r: Result<()>)
      requires Valid()
      modifies this`schedules
      ensures Valid()
      ensures r.Ok? <==> name in views && views[name].materialized
      ensures r.Err? ==> Now() == old(Now()) && r.error == if name in views then InvalidOperation else NotFound
      ensures r.Ok? ==> schedules == old(schedules)[name := RefreshSchedule(interval, now + interval, None, true)]
    {
      if name !in views { return Err(NotFound); }
      if !views[name].materialized { return Err(InvalidOperation); }
      schedules := schedules[name := RefreshSchedule(interval, now + interval, None, true)];
      return Ok(());
    }

    predicate Due(name: string, now: int)
      reads this
    {
      name in schedules && schedules[name].active && now >= schedules[name].nextRefresh
    }

    /** An answer of "no" for a materialized view means it was refreshed, with or
        without data, after every recorded change to every table it reads. */
    method NeedsRefresh(name: string, now: int) returns (r: Result<bool>)
      requires Valid()
      ensures r.Ok? <==> name in views
      ensures r.Err? ==> r.error == NotFound
      ensures r.Ok? ==>
        r.value == (views[name].materialized &&
                    (status[name] == Stale || (name in schedules && schedules[name].active && schedules[name].nextRefresh <= now)))
      ensures r == Ok(false) && views[name].materialized ==>
        UpToDate(history, name, NamesIn(views[name].dependencies))
    {
      if name !in views { return Err(NotFound); }
      if !views[name].materialized { return Ok(false); }
      match status[name]
      case Fresh => return Ok(Due(name, now));
      case Stale => return Ok(true);
    }

    /** Every dependent of the table becomes stale; the log keeps the latest
        thousand changes. */
    method RecordTableChange(change: Change)
      requires Valid()
      modifies this`changeLog, this`status, this`history
      ensures Valid()
      ensures history == old(history) + [Changed(change)]
      ensures changeLog == (if |old(changeLog)| < 1000 then old(changeLog) else old(changeLog)[1..]) + [change]
      ensures status.Keys == old(status).Keys
      ensures forall v | v in views ::
        status[v] == if change.table in views[v].dependencies then Stale else old(status)[v]
    {
      changeLog := changeLog + [change];
      status := MarkStale(tableToViews, status, change.table);
      if |changeLog| > CHANGE_LOG_LIMIT {
        changeLog := changeLog[|changeLog| - CHANGE_LOG_LIMIT..];
      }
      ghost var next := AfterChange(old(Now()), change, status);
      history := history + [Changed(change)];
      assert Now() == next;
    }

    /** Refreshes exactly what is stale or due. Afterwards every materialized view
        is fresh, and only one whose active schedule has no interval is due again.
        The failure branch of the loop cannot be taken. */
    method RefreshAllStaleViews(now: int) returns (refreshed: seq<string>)
      requires Valid()
      modifies this`views, this`status, this`history, this`schedules
      ensures Valid() && RefreshedAll(old(Now()), Now(), refreshed, now)
      ensures forall v :: v in refreshed <==>
        v in old(views) && old(views)[v].materialized && (old(status)[v] == Stale || old(Due(v, now)))
      ensures forall i, j | 0 <= i < j < |refreshed| :: refreshed[i] != refreshed[j]
      ensures forall v | v in views && views[v].materialized :: status[v] == Fresh
      ensures forall v :: Due(v, now) <==> v in refreshed && v in schedules && schedules[v].active && schedules[v].interval == 0
      ensures forall v | v in refreshed && v in schedules ::
        schedules[v].lastRefresh == Some(now) && schedules[v].nextRefresh == now + schedules[v].interval &&
        schedules[v].interval == old(schedules)[v].interval && schedules[v].active == old(schedules)[v].active
    {
      refreshed := ViewsNeedingRefresh(now);
      assert forall k | 0 <= k < |refreshed| :: refreshed[k] in refreshed;
      RefreshEach(refreshed, now);
      RefreshedToMeans(old(Now()), refreshed, |refreshed|, now);
      assert refreshed[..|refreshed|] == refreshed;
    }

    method RefreshEach(names: seq<string>, now: int)
      requires Valid() && forall k | 0 <= k < |names| :: names[k] in views && views[names[k]].materialized
      modifies this`views, this`status, this`history, this`schedules
      ensures Valid() && Now() == RefreshedTo(old(Now()), names, |names|, now)
    {
      for i := 0 to |names|
        invariant Valid() && Now() == RefreshedTo(old(Now()), names, i, now)
      {
        StillMaterialized(old(Now()), names, i, now, names[i]);
        RefreshAndReschedule(names[i], now);
      }
    }

    method RefreshAndReschedule(name: string, now: int)
      requires Valid() && name in views && views[name].materialized
      modifies this`views, this`status, this`history, this`schedules
      ensures Valid() && Now() == RefreshedOne(old(Now()), name, now)
    {
      var r := RefreshMaterializedView(name, true, now);
      UpdateRefreshSchedule(name, now);
    }

    method ViewsNeedingRefresh(now: int) returns (names: seq<string>)
      requires Valid()
      ensures forall v :: v in names <==> v in views && views[v].materialized && (status[v] == Stale || Due(v, now))
      ensures forall i, j | 0 <= i < j < |names| :: names[i] != names[j]
    {
      names := [];
      var left := views.Keys;
      while left != {}
        invariant left <= views.Keys
        invariant forall v :: v in names <==>
          v in views && v !in left && views[v].materialized && (status[v] == Stale || Due(v, now))
        invariant forall i, j | 0 <= i < j < |names| :: names[i] != names[j]
      {
        var v :| v in left;
        left := left - {v};
        if views[v].materialized && (status[v] == Stale || Due(v, now)) { names := names + [v]; }
      }
    }

    method UpdateRefreshSchedule(name: string, now: int)
      requires Valid()
      modifies this`schedules
      ensures Valid()
      ensures Now() == old(Now()).(schedules := MovedSchedule(old(schedules), name, now))
      ensures name in schedules ==> schedules[name].lastRefresh == Some(now) && schedules[name].nextRefresh == now + schedules[name].interval
    {
      if name in schedules { schedules := schedules[name := Rescheduled(schedules[name], now)]; }
    }
  }

  /** Some other view lists `name` among its dependencies. */
  ghost predicate Depended(views: Views, name: string) {
    exists v | v in views && v != name :: name in views[v].dependencies
  }

  method HasDependents(views: Views, name: string) returns (found: bool)
    ensures found <==> Depended(views, name)
  {
    found := false;
    var left := views.Keys;
    while left != {}
      invariant left <= views.Keys
      invariant found <==> exists v | v in views && v !in left && v != name :: name in views[v].dependencies
    {
      var v :| v in left;
      left := left - {v};
      if v != name && name in views[v].dependencies { found := true; }
    }
  }
}
