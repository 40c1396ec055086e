/** The audit-log cursor dispatcher (aifw-api/src/plugins.rs:208-318). */
module AuditHook {
  import opened Basics

  datatype Entry = Entry(rowid: nat, action: string, details: string, source: string)

  datatype Action = AddToTable(table: string, ip: string) | RemoveFromTable(table: string, ip: string) | Continue

  /** The contents of the pf tables. */
  type PfTables = map<string, set<string>>

  const LIMIT: nat := 200

  ghost predicate Ascending(log: seq<Entry>) {
    && (forall i :: 0 <= i < |log| ==> log[i].rowid > 0)
    && (forall i, j :: 0 <= i < j < |log| ==> log[i].rowid < log[j].rowid)
  }

  /** `COALESCE(MAX(rowid), 0)`. */
  function Tail(log: seq<Entry>): nat {
    if log == [] then 0 else log[|log| - 1].rowid
  }

  /** How many rows are at or before `c`. */
  function Cut(log: seq<Entry>, c: nat): (n: nat)
    ensures n <= |log|
  {
    if log == [] || log[0].rowid > c then 0 else 1 + Cut(log[1..], c)
  }

  lemma {:induction false} CutSpec(log: seq<Entry>, c: nat)
    requires Ascending(log)
    ensures forall i :: 0 <= i < |log| ==> (i < Cut(log, c) <==> log[i].rowid <= c)
  {
    if log != [] && log[0].rowid <= c {
      CutSpec(log[1..], c);
      forall i | 1 <= i < |log| ensures i < Cut(log, c) <==> log[i].rowid <= c {
        assert log[i] == log[1..][i - 1];
      }
    }
  }

  lemma CutIs(log: seq<Entry>, c: nat, n: nat)
    requires Ascending(log) && n <= |log|
    requires n > 0 ==> log[n - 1].rowid <= c
    requires n < |log| ==> log[n].rowid > c
    ensures Cut(log, c) == n
  {
    CutSpec(log, c);
  }

  /** The rows with rowid in (a, b]. */
  function Between(log: seq<Entry>, a: nat, b: nat): seq<Entry> {
    if Cut(log, a) <= Cut(log, b) then log[Cut(log, a)..Cut(log, b)] else []
  }

  /** `WHERE rowid > c ORDER BY rowid ASC LIMIT 200`. */
  function Query(log: seq<Entry>, c: nat): seq<Entry> {
    Take(log[Cut(log, c)..], LIMIT)
  }

  function NextCursor(log: seq<Entry>, c: nat): nat {
    if Query(log, c) == [] then c else Tail(Query(log, c))
  }

  /** A poll advances the cursor over exactly the rows it fetched. */
  lemma PollAdvances(log: seq<Entry>, c: nat)
    requires Ascending(log) && c <= Tail(log)
    ensures c <= NextCursor(log, c) <= Tail(log)
    ensures Cut(log, NextCursor(log, c)) == Min(Cut(log, c) + 200, |log|)
    ensures Between(log, c, NextCursor(log, c)) == Query(log, c)
  {
    CutSpec(log, c);
    var n := Min(Cut(log, c) + LIMIT, |log|);
    assert Query(log, c) == log[Cut(log, c)..n];
    if Cut(log, c) < |log| {
      assert Tail(Query(log, c)) == log[n - 1].rowid;
      CutIs(log, log[n - 1].rowid, n);
    }
  }

  lemma BetweenJoins(log: seq<Entry>, a: nat, b: nat, c: nat)
    requires Cut(log, a) <= Cut(log, b) <= Cut(log, c)
    ensures Between(log, a, c) == Between(log, a, b) + Between(log, b, c)
  {}

  lemma CutMonotone(log: seq<Entry>, a: nat, b: nat)
    requires Ascending(log) && a <= b
    ensures Cut(log, a) <= Cut(log, b)
  {
    CutSpec(log, a);
    CutSpec(log, b);
    var n := Cut(log, b);
    assert n < |log| ==> log[n].rowid > b;
  }

  /** New rows come after the cursor, so they change nothing that was already passed. */
  lemma AppendKeepsCut(log: seq<Entry>, more: seq<Entry>, c: nat)
    requires Ascending(log + more) && c <= Tail(log)
    ensures Ascending(log) && Cut(log + more, c) == Cut(log, c)
  {
    var all := log + more;
    forall i, j | 0 <= i < j < |log| ensures log[i].rowid < log[j].rowid {
      assert all[i].rowid < all[j].rowid;
    }
    forall i | 0 <= i < |log| ensures log[i].rowid > 0 {
      assert all[i].rowid > 0;
    }
    CutSpec(log, c);
    var n := Cut(log, c);
    assert n < |log| ==> all[n] == log[n];
    assert n > 0 ==> all[n - 1] == log[n - 1];
    if n == |log| < |all| {
      assert all[n].rowid > c by {
        if log != [] { assert all[n - 1].rowid < all[n].rowid; }
      }
    }
    CutIs(all, c, n);
  }

  // ---------------------------------------------------------------- catching up

  function CursorAfter(log: seq<Entry>, c: nat, polls: nat): nat {
    if polls == 0 then c else NextCursor(log, CursorAfter(log, c, polls - 1))
  }

  /** Any burst is drained: `n` polls without failures pass 200 rows each until none is left. */
  lemma {:induction false} CatchesUp(log: seq<Entry>, c: nat, polls: nat)
    requires Ascending(log) && c <= Tail(log)
    ensures c <= CursorAfter(log, c, polls) <= Tail(log)
    ensures Cut(log, CursorAfter(log, c, polls)) == Min(Cut(log, c) + 200 * polls, |log|)
  {
    hide Cut, NextCursor, Ascending, Tail;
    if polls > 0 {
      CatchesUp(log, c, polls - 1);
      PollAdvances(log, CursorAfter(log, c, polls - 1));
    }
  }

  // ---------------------------------------------------------------- actions

  function Acted(tables: PfTables, act: Action, works: Action -> bool): PfTables {
    if !works(act) then tables
    else
      match act
      case AddToTable(t, ip) => tables[t := (if t in tables then tables[t] else {}) + {ip}]
      case RemoveFromTable(t, ip) => tables[t := (if t in tables then tables[t] else {}) - {ip}]
      case Continue => tables
  }

  function AllActed(tables: PfTables, acts: seq<Action>, works: Action -> bool): PfTables {
    if acts == [] then tables else Acted(AllActed(tables, acts[..|acts| - 1], works), acts[|acts| - 1], works)
  }

  /** What the plugins do to the tables when they are told of `entries`. */
  function Reaction(tables: PfTables, entries: seq<Entry>, plugins: Entry -> seq<Action>, works: Action -> bool): PfTables {
    if entries == [] then tables
    else AllActed(Reaction(tables, entries[..|entries| - 1], plugins, works), plugins(entries[|entries| - 1]), works)
  }

  ghost predicate Holds(tables: PfTables, t: string, ip: string) {
    t in tables && ip in tables[t]
  }

  predicate Concerns(act: Action, t: string, ip: string) {
    act == AddToTable(t, ip) || act == RemoveFromTable(t, ip)
  }

  /** Action `i` works, concerns the pair, and is the last one to do so. */
  ghost predicate LastOn(acts: seq<Action>, works: Action -> bool, t: string, ip: string, i: nat) {
    && i < |acts| && works(acts[i]) && Concerns(acts[i], t, ip)
    && forall j :: i < j < |acts| ==> !(works(acts[j]) && Concerns(acts[j], t, ip))
  }

  ghost predicate Untouched(acts: seq<Action>, works: Action -> bool, t: string, ip: string) {
    forall i :: 0 <= i < |acts| ==> !(works(acts[i]) && Concerns(acts[i], t, ip))
  }

  /** An address is in a table exactly when the last working action on the pair was to add it, or there was none and
    * it was there before.
    */
  lemma {:induction false} ActedExactly(tables: PfTables, acts: seq<Action>, works: Action -> bool, t: string, ip: string)
    ensures Holds(AllActed(tables, acts, works), t, ip)
       <==> (exists i: nat :: LastOn(acts, works, t, ip, i) && acts[i] == AddToTable(t, ip))
            || (Untouched(acts, works, t, ip) && Holds(tables, t, ip))
  {
    if acts != [] {
      var n := |acts| - 1;
      var front, last := acts[..n], acts[n];
      ActedExactly(tables, front, works, t, ip);
      OneActed(AllActed(tables, front, works), last, works, t, ip);
      hide AllActed, Acted, Holds;
      if works(last) && Concerns(last, t, ip) {
        assert LastOn(acts, works, t, ip, n);
        assert !Untouched(acts, works, t, ip);
      } else {
        hide Concerns;
        assert Untouched(acts, works, t, ip) <==> Untouched(front, works, t, ip);
        forall i: nat ensures LastOn(acts, works, t, ip, i) <==> LastOn(front, works, t, ip, i) {}
      }
    }
  }

  /** One action. */
  lemma OneActed(tables: PfTables, act: Action, works: Action -> bool, t: string, ip: string)
    ensures Holds(Acted(tables, act, works), t, ip)
       <==> if works(act) && Concerns(act, t, ip) then act.AddToTable? else Holds(tables, t, ip)
  {}

  /** All the actions that the plugins answer with, in the order of the rows. */
  function Answers(entries: seq<Entry>, plugins: Entry -> seq<Action>): seq<Action> {
    if entries == [] then [] else Answers(entries[..|entries| - 1], plugins) + plugins(entries[|entries| - 1])
  }

  lemma {:induction false} ActedJoins(tables: PfTables, a: seq<Action>, b: seq<Action>, works: Action -> bool)
    ensures AllActed(tables, a + b, works) == AllActed(AllActed(tables, a, works), b, works)
  {
    hide Acted;
    if b == [] {
      assert a + b == a;
    } else {
      assert (a + b)[..|a + b| - 1] == a + b[..|b| - 1];
      ActedJoins(tables, a, b[..|b| - 1], works);
    }
  }

  lemma {:induction false} ReactionIsActed(tables: PfTables, entries: seq<Entry>, plugins: Entry -> seq<Action>, works: Action -> bool)
    ensures Reaction(tables, entries, plugins, works) == AllActed(tables, Answers(entries, plugins), works)
  {
    hide AllActed;
    if entries == [] {
      NoActions(tables, works);
    } else {
      var n := |entries| - 1;
      ReactionIsActed(tables, entries[..n], plugins, works);
      ActedJoins(tables, Answers(entries[..n], plugins), plugins(entries[n]), works);
    }
  }

  lemma NoActions(tables: PfTables, works: Action -> bool)
    ensures AllActed(tables, [], works) == tables
  {}

  /** The same over all the rows the plugins were told of. */
  lemma ReactionExactly(tables: PfTables, entries: seq<Entry>, plugins: Entry -> seq<Action>, works: Action -> bool, t: string, ip: string)
    ensures var acts := Answers(entries, plugins);
      Holds(Reaction(tables, entries, plugins, works), t, ip)
      <==> (exists i: nat :: LastOn(acts, works, t, ip, i) && acts[i] == AddToTable(t, ip))
           || (Untouched(acts, works, t, ip) && Holds(tables, t, ip))
  {
    hide Reaction, AllActed, Answers;
    ReactionIsActed(tables, entries, plugins, works);
    ActedExactly(tables, Answers(entries, plugins), works, t, ip);
  }

  method ApplyActions(tables: PfTables, acts: seq<Action>, works: Action -> bool) returns (out: PfTables)
    ensures out == AllActed(tables, acts, works)
  {
    out := tables;
    for i := 0 to |acts|
      invariant out == AllActed(tables, acts[..i], works)
    {
      out := Acted(out, acts[i], works);
      assert acts[..i + 1][..i] == acts[..i];
    }
    assert acts[..|acts|] == acts;
  }

  // ---------------------------------------------------------------- the loop as a step system

  /** The loop, the plugin count and the log. `idle[i]` says that no plugin was running when row i was written;
    * `snap` is the cursor at the latest activation, the tick that found plugins running after one that did not,
    * and `earlier` what had been handed over by then. `lapse` records that the tail query of that activation failed
    * over a log with an idle row in it, `gap` that an idle row was written since.
    */
  datatype Sys = Sys(
    log: seq<Entry>, idle: seq<bool>, running: bool,
    cursor: nat, wasActive: bool, handed: seq<Entry>,
    snap: nat, earlier: seq<Entry>, lapse: bool, gap: bool)

  datatype Step =
    | SetRunning(some: bool)                     // the last plugin is disabled, or a first one enabled
    | Write(row: Entry)                          // an engine writes an audit row
    | Tick(tailWorks: bool, queryWorks: bool)    // five seconds have passed

  /** When the task starts: some log, of which nothing has been handed over. */
  function Start(log: seq<Entry>, idle: seq<bool>, running: bool, tailWorks: bool): Sys {
    Sys(log, idle, running, if tailWorks then Tail(log) else 0, false, [], 0, [], false, false)
  }

  ghost predicate Enabled(s: Sys, step: Step) {
    step.Write? ==> step.row.rowid > Tail(s.log)
  }

  function Next(s: Sys, step: Step): Sys {
    match step
    case SetRunning(some) => s.(running := some)
    case Write(row) =>
      s.(log := s.log + [row], idle := s.idle + [!s.running], gap := s.gap || (s.wasActive && !s.running))
    case Tick(tailWorks, queryWorks) =>
      if !s.running then s.(wasActive := false)
      else if !s.wasActive then
        var tail := if tailWorks then Tail(s.log) else 0;
        s.(cursor := tail, wasActive := true, snap := tail, earlier := s.handed, lapse := !tailWorks && true in s.idle, gap := false)
      else if queryWorks then
        s.(cursor := NextCursor(s.log, s.cursor), handed := s.handed + Query(s.log, s.cursor))
      else s
  }

  /** Row `i` was written while no plugin was running and lies after the latest snap. */
  ghost predicate Due(s: Sys, i: nat) {
    i < |s.idle| && |s.idle| == |s.log| && s.idle[i] && s.log[i].rowid > s.snap
  }

  ghost predicate SomeDue(s: Sys) {
    exists i: nat :: Due(s, i)
  }

  ghost predicate Inv(s: Sys) {
    && |s.idle| == |s.log| && Ascending(s.log) && s.cursor <= Tail(s.log)
    && (s.wasActive ==>
          && s.snap <= s.cursor
          && s.handed == s.earlier + Between(s.log, s.snap, s.cursor)
          && (SomeDue(s) <==> s.lapse || s.gap))
  }

  lemma WriteStep(s: Sys, row: Entry)
    requires Inv(s) && row.rowid > Tail(s.log)
    ensures Inv(Next(s, Write(row)))
  {
    hide Between, Cut;
    var t := Next(s, Write(row));
    AppendAscends(s.log, row);
    AppendRaisesTail(s.log, [row]);
    if s.wasActive {
      AppendKeepsBetween(s.log, [row], s.snap, s.cursor);
      forall i: nat ensures Due(t, i) <==> Due(s, i) || (i == |s.log| && !s.running) {}
      if SomeDue(s) {
        var i: nat :| Due(s, i);
        assert Due(t, i);
      }
      if !s.running {
        assert Due(t, |s.log|);
      }
    }
  }

  lemma AppendAscends(log: seq<Entry>, row: Entry)
    requires Ascending(log) && row.rowid > Tail(log)
    ensures Ascending(log + [row])
  {}

  lemma TickStep(s: Sys, tailWorks: bool, queryWorks: bool)
    requires Inv(s)
    ensures Inv(Next(s, Tick(tailWorks, queryWorks)))
  {
    hide Between, Cut, Query, NextCursor;
    var t := Next(s, Tick(tailWorks, queryWorks));
    if s.running && !s.wasActive {
      NothingBetween(s.log, t.snap);
      SnapDue(t, tailWorks);
    } else if s.running && queryWorks {
      BatchJoins(s.log, s.snap, s.cursor);
      forall i: nat ensures Due(t, i) <==> Due(s, i) {}
    } else {
      forall i: nat ensures Due(t, i) <==> Due(s, i) {}
    }
  }

  lemma NothingBetween(log: seq<Entry>, c: nat)
    ensures Between(log, c, c) == []
  {}

  /** What is due right after a snap. */
  lemma SnapDue(s: Sys, tailWorks: bool)
    requires |s.idle| == |s.log| && Ascending(s.log) && s.snap == if tailWorks then Tail(s.log) else 0
    ensures SomeDue(s) <==> !tailWorks && true in s.idle
  {
    if !tailWorks && true in s.idle {
      var i :| 0 <= i < |s.idle| && s.idle[i];
      assert Due(s, i);
    }
  }

  /** Every change of the plugin count, every row and every tick keeps the invariant. */
  lemma StepKeepsInv(s: Sys, step: Step)
    requires Inv(s) && Enabled(s, step)
    ensures Inv(Next(s, step))
  {
    hide Between, Cut;
    match step
    case SetRunning(some) =>
      forall i: nat ensures Due(Next(s, step), i) <==> Due(s, i) {}
    case Write(row) => WriteStep(s, row);
    case Tick(tailWorks, queryWorks) => TickStep(s, tailWorks, queryWorks);
  }

  ghost predicate Run(s: Sys, steps: seq<Step>, end: Sys)
    decreases |steps|
  {
    if steps == [] then s == end
    else Enabled(s, steps[0]) && Run(Next(s, steps[0]), steps[1..], end)
  }

  lemma {:induction false} RunKeepsInv(s: Sys, steps: seq<Step>, end: Sys)
    requires Inv(s) && Run(s, steps, end)
    ensures Inv(end)
    decreases |steps|
  {
    hide Inv, Enabled, Next;
    if steps != [] {
      StepKeepsInv(s, steps[0]);
      RunKeepsInv(Next(s, steps[0]), steps[1..], end);
    }
  }

  /** The row is in the log and was written while no plugin was running. */
  ghost predicate WrittenIdle(s: Sys, e: Entry) {
    exists i :: 0 <= i < |s.log| && i < |s.idle| && s.log[i] == e && s.idle[i]
  }

  /** The rows handed over since the latest activation. */
  function Since(s: Sys): seq<Entry> {
    Between(s.log, s.snap, s.cursor)
  }

  /** After `n` ticks more whose queries work, with no other change. */
  function Polled(s: Sys, n: nat): Sys {
    if n == 0 then s else Next(Polled(s, n - 1), Tick(true, true))
  }

  lemma {:induction false} PolledCursor(s: Sys, n: nat)
    requires s.running && s.wasActive
    ensures Polled(s, n) == s.(cursor := Polled(s, n).cursor, handed := Polled(s, n).handed)
    ensures Polled(s, n).cursor == CursorAfter(s.log, s.cursor, n)
  {
    hide NextCursor, Query;
    if n > 0 {
      PolledCursor(s, n - 1);
    }
  }

  lemma {:induction false} PolledKeepsInv(s: Sys, n: nat)
    requires Inv(s)
    ensures Inv(Polled(s, n))
  {
    hide Inv, Next;
    if n > 0 {
      PolledKeepsInv(s, n - 1);
      TickStep(Polled(s, n - 1), true, true);
    }
  }

  lemma IdleSince(s: Sys)
    requires Inv(s) && s.wasActive && Cut(s.log, s.cursor) == |s.log|
    ensures SomeDue(s) <==> exists e :: e in Since(s) && WrittenIdle(s, e)
  {
    hide Between;
    CutSpec(s.log, s.cursor);
    hide Cut;
    BetweenMeaning(s.log, s.snap, s.cursor);
    if SomeDue(s) {
      var i: nat :| Due(s, i);
      assert s.log[i] in Since(s) && WrittenIdle(s, s.log[i]);
    }
    if e :| e in Since(s) && WrittenIdle(s, e) {
      var i :| 0 <= i < |s.log| && i < |s.idle| && s.log[i] == e && s.idle[i];
      assert Due(s, i);
    }
  }

  /** The documented promise that entries written while no plugin is running are skipped, decided exactly. Take any
    * run that has brought the loop to poll, and let it catch up: no row written while no plugin was running has
    * been handed over since the activation if and only if the tail query of that activation worked or found no such
    * row, and none was written since, that is in a time without plugins that no tick fell into.
    */
  lemma IdleSkippedExactly(s0: Sys, steps: seq<Step>, s: Sys, n: nat)
    requires Inv(s0) && Run(s0, steps, s) && s.running && s.wasActive && |s.log| <= 200 * n
    ensures var end := Polled(s, n);
      && end.log == s.log && end.handed == s.earlier + Since(end)
      && ((forall e :: e in Since(end) ==> !WrittenIdle(end, e)) <==> !s.lapse && !s.gap)
  {
    hide Between, Cut, Ascending, SomeDue, WrittenIdle, Next, Since;
    RunKeepsInv(s0, steps, s);
    PolledCursor(s, n);
    PolledKeepsInv(s, n);
    CatchesUp(s.log, s.cursor, n);
    var end := Polled(s, n);
    SinceIs(end);
    IdleSince(end);
  }

  lemma SinceIs(s: Sys)
    ensures Since(s) == Between(s.log, s.snap, s.cursor)
  {}

  lemma StartInv(log: seq<Entry>, idle: seq<bool>, running: bool, tailWorks: bool)
    requires Ascending(log) && |idle| == |log|
    ensures Inv(Start(log, idle, running, tailWorks)) && NoIdleHanded(Start(log, idle, running, tailWorks))
  {}

  /** No poll of the run happens after a lapse or in an unseen gap. */
  ghost predicate CleanRun(s: Sys, steps: seq<Step>)
    decreases |steps|
  {
    steps == [] ||
    (&& (steps[0].Tick? && s.running && s.wasActive ==> !s.lapse && !s.gap)
     && CleanRun(Next(s, steps[0]), steps[1..]))
  }

  ghost predicate NoIdleHanded(s: Sys) {
    forall e :: e in s.handed ==> e in s.log && !WrittenIdle(s, e)
  }

  lemma PollHandsOver(s: Sys, queryWorks: bool)
    requires Inv(s) && s.running && s.wasActive && !s.lapse && !s.gap && NoIdleHanded(s)
    ensures NoIdleHanded(Next(s, Tick(true, queryWorks)))
  {
    hide Cut;
    if queryWorks {
      var t := Next(s, Tick(true, true));
      PollAdvances(s.log, s.cursor);
      BetweenMeaning(s.log, s.cursor, t.cursor);
      hide Between, Query, NextCursor;
      forall e | e in t.handed ensures e in t.log && !WrittenIdle(t, e) {
        if e in Query(s.log, s.cursor) {
          NotDue(s, e);
        }
      }
    }
  }

  lemma NotDue(s: Sys, e: Entry)
    requires |s.idle| == |s.log| && !SomeDue(s) && e.rowid > s.snap
    ensures !WrittenIdle(s, e)
  {
    if WrittenIdle(s, e) {
      var i :| 0 <= i < |s.log| && i < |s.idle| && s.log[i] == e && s.idle[i];
      assert Due(s, i);
    }
  }

  lemma WriteHandsNothing(s: Sys, row: Entry)
    requires Inv(s) && row.rowid > Tail(s.log) && NoIdleHanded(s)
    ensures NoIdleHanded(Next(s, Write(row)))
  {
    var t := Next(s, Write(row));
    forall e | e in t.handed ensures e in t.log && !WrittenIdle(t, e) {
      assert e in s.log && !WrittenIdle(s, e);
      var j :| 0 <= j < |s.log| && s.log[j] == e;
      assert t.log[j] == e && e.rowid <= Tail(s.log);
      IdleBefore(s, row, e);
    }
  }

  lemma IdleBefore(s: Sys, row: Entry, e: Entry)
    requires |s.idle| == |s.log| && e.rowid < row.rowid
    ensures WrittenIdle(Next(s, Write(row)), e) ==> WrittenIdle(s, e)
  {
    var t := Next(s, Write(row));
    if i :| 0 <= i < |t.log| && i < |t.idle| && t.log[i] == e && t.idle[i] {
      assert i < |s.log|;
      assert s.log[i] == e && s.idle[i];
    }
  }

  /** Over a whole run: if no poll happens after a lapse or in an unseen gap, no row written while no plugin was
    * running is ever handed over.
    */
  lemma {:induction false} CleanRunSkipsIdle(s: Sys, steps: seq<Step>, end: Sys)
    requires Inv(s) && Run(s, steps, end) && CleanRun(s, steps) && NoIdleHanded(s)
    ensures NoIdleHanded(end)
    decreases |steps|
  {
    hide Inv, NoIdleHanded;
    if steps != [] {
      var t := Next(s, steps[0]);
      StepKeepsInv(s, steps[0]);
      assert NoIdleHanded(t) by { HandedStep(s, steps[0]); }
      CleanRunSkipsIdle(t, steps[1..], end);
    }
  }

  lemma HandedStep(s: Sys, step: Step)
    requires Inv(s) && Enabled(s, step) && NoIdleHanded(s)
    requires step.Tick? && s.running && s.wasActive ==> !s.lapse && !s.gap
    ensures NoIdleHanded(Next(s, step))
  {
    hide Between, Cut, Query, NextCursor;
    if step.Write? {
      WriteHandsNothing(s, step.row);
    } else if step.Tick? && s.running && s.wasActive {
      PollHandsOver(s, step.queryWorks);
      assert Next(s, step) == Next(s, Tick(true, step.queryWorks));
    } else {
      assert forall e :: WrittenIdle(Next(s, step), e) == WrittenIdle(s, e);
    }
  }

  /** An idle row handed over without any failure: the last plugin is disabled, a row is written, a plugin is enabled again before the
    * next tick, and the row is handed over, with every query working.
    */
  lemma GapExample(row: Entry)
    requires row.rowid == 1
    ensures var s0 := Start([], [], true, true);
      var s := Next(Next(Next(Next(s0, Tick(true, true)), SetRunning(false)), Write(row)), SetRunning(true));
      s.gap && !s.lapse && Next(s, Tick(true, true)).handed == [row] && WrittenIdle(Next(s, Tick(true, true)), row)
  {
    var s0 := Start([], [], true, true);
    var s := Next(Next(Next(Next(s0, Tick(true, true)), SetRunning(false)), Write(row)), SetRunning(true));
    assert s.log == [row] && s.idle == [true] && s.cursor == 0;
    assert Cut([row], 0) == 0;
    assert Query([row], 0) == [row];
    var t := Next(s, Tick(true, true));
    assert t.log[0] == row && t.idle[0];
  }

  // ---------------------------------------------------------------- the dispatcher

  /** The rows that plugins were told of: those dispatched while at least one was running. */
  ghost function Select(rows: seq<Entry>, told: seq<bool>): seq<Entry>
    requires |rows| == |told|
  {
    if rows == [] then []
    else
      var n := |rows| - 1;
      Select(rows[..n], told[..n]) + if told[n] then [rows[n]] else []
  }

  lemma {:induction false} SelectAll(rows: seq<Entry>, told: seq<bool>)
    requires |rows| == |told| && forall i :: 0 <= i < |told| ==> told[i]
    ensures Select(rows, told) == rows
  {
    if rows != [] {
      var n := |rows| - 1;
      SelectAll(rows[..n], told[..n]);
      assert rows == rows[..n] + [rows[n]];
    }
  }

  lemma SelectSnoc(rows: seq<Entry>, told: seq<bool>, row: Entry, b: bool)
    requires |rows| == |told|
    ensures Select(rows + [row], told + [b]) == if b then Select(rows, told) + [row] else Select(rows, told)
  {
    assert (rows + [row])[..|rows|] == rows && (told + [b])[..|rows|] == told;
  }

  lemma ReactionSnoc(tables: PfTables, rows: seq<Entry>, row: Entry, plugins: Entry -> seq<Action>, works: Action -> bool)
    ensures Reaction(tables, rows + [row], plugins, works)
         == AllActed(Reaction(tables, rows, plugins, works), plugins(row), works)
  {
    assert (rows + [row])[..|rows|] == rows;
  }

  class Dispatcher {
    var log: seq<Entry>
    var cursor: nat
    var wasActive: bool
    var tables: PfTables
    const plugins: Entry -> seq<Action>
    const works: Action -> bool
    var running: bool
    /** The step system's view of all this; the tables at the latest activation, the rows passed since then, and
      * which of them found a plugin running.
      */
    ghost var view: Sys
    ghost var snapTables: PfTables
    ghost var passed: seq<Entry>
    ghost var told: seq<bool>

    ghost predicate Valid()
      reads this
    {
      && Inv(view)
      && view.log == log && view.running == running && view.cursor == cursor && view.wasActive == wasActive
      && (wasActive ==> passed == Since(view) && Reacted())
    }

    /** The tables are what the plugins made of the rows they were told of. */
    ghost predicate Reacted()
      reads this
    {
      |told| == |passed| && tables == Reaction(snapTables, Select(passed, told), plugins, works)
    }

    /** `start_audit_hook_dispatcher` up to its loop. */
    constructor (log: seq<Entry>, ghost idle: seq<bool>, tables: PfTables, running: bool, tailWorks: bool,
                 plugins: Entry -> seq<Action>, works: Action -> bool)
      requires Ascending(log) && |idle| == |log|
      ensures Valid() && this.tables == tables && view == Start(log, idle, running, tailWorks)
    {
      this.log, this.tables, this.running, this.plugins, this.works := log, tables, running, plugins, works;
      this.cursor, this.wasActive := if tailWorks then Tail(log) else 0, false;
      this.view := Start(log, idle, running, tailWorks);
    }

    /** The shadow counter becomes zero, or stops being zero. */
    method Switch(some: bool)
      requires Valid()
      modifies this`running, this`view
      ensures Valid() && view == Next(old(view), SetRunning(some))
    {
      hide Inv, Reaction, Select, Since;
      StepKeepsInv(view, SetRunning(some));
      SinceKept(view, Next(view, SetRunning(some)));
      running := some;
      view := Next(view, SetRunning(some));
    }

    /** The engines write an audit row. */
    method Append(row: Entry)
      requires Valid() && row.rowid > Tail(log)
      modifies this`log, this`view
      ensures Valid() && view == Next(old(view), Write(row))
    {
      hide Inv, Reaction, Select, Since;
      StepKeepsInv(view, Write(row));
      SinceAppend(view, row);
      log := log + [row];
      view := Next(view, Write(row));
    }

    /** `dispatch_hook` for one row: the cursor moves first; without a running plugin nothing is dispatched. */
    method Dispatch(row: Entry, running: bool)
      requires Reacted()
      modifies this`cursor, this`tables, this`passed, this`told
      ensures Reacted() && cursor == row.rowid
      ensures passed == old(passed) + [row] && told == old(told) + [running]
    {
      hide Select, Reaction, AllActed;
      SelectSnoc(passed, told, row, running);
      cursor := row.rowid;
      if running {
        ReactionSnoc(snapTables, Select(passed, told), row, plugins, works);
        tables := ApplyActions(tables, plugins(row), works);
      }
      passed, told := passed + [row], told + [running];
    }

    /** `dispatch_new_audit_entries`, with `up` saying whether a plugin is still running at each row. */
    method DispatchNew(queryWorks: bool, up: Entry -> bool)
      requires Reacted()
      modifies this`cursor, this`tables, this`passed, this`told
      ensures Reacted()
      ensures cursor == if queryWorks then NextCursor(log, old(cursor)) else old(cursor)
      ensures passed == old(passed) + if queryWorks then Query(log, old(cursor)) else []
      ensures forall i :: 0 <= i < |old(told)| ==> told[i] == old(told)[i]
      ensures forall i :: |old(told)| <= i < |told| ==> told[i] == up(passed[i])
    {
      hide Between, Cut, Ascending, Reacted, Query;
      if !queryWorks {
        ToldOfPassed();
        return;
      }
      ghost var start := cursor;
      var rows := Query(log, cursor);
      ToldOfPassed();
      for i := 0 to |rows|
        invariant cursor == if i == 0 then start else rows[i - 1].rowid
        invariant Reacted() && passed == old(passed) + rows[..i]
        invariant |told| == |old(told)| + i
        invariant forall j :: 0 <= j < |old(told)| ==> told[j] == old(told)[j]
        invariant forall j :: |old(told)| <= j < |told| ==> told[j] == up(passed[j])
      {
        Dispatch(rows[i], up(rows[i]));
        assert rows[..i + 1] == rows[..i] + [rows[i]];
      }
      assert rows[..|rows|] == rows;
    }

    lemma ToldOfPassed()
      requires Reacted()
      ensures |told| == |passed|
    {}

    /** One turn of the background loop. */
    method Turn(tailWorks: bool, queryWorks: bool, up: Entry -> bool)
      requires Valid()
      modifies this`cursor, this`wasActive, this`tables, this`view, this`snapTables, this`passed, this`told
      ensures Valid() && view == Next(old(view), Tick(tailWorks, queryWorks))
      ensures !old(running && wasActive) ==> tables == old(tables)
      ensures old(running && wasActive) ==> snapTables == old(snapTables) && |old(told)| <= |told|
      ensures old(running && wasActive) ==> forall i :: |old(told)| <= i < |told| ==> i < |passed| && told[i] == up(passed[i])
    {
      hide Inv, Since, Select, Reaction, Query, NextCursor;
      StepKeepsInv(view, Tick(tailWorks, queryWorks));
      SinceTick(view, tailWorks, queryWorks);
      if !running {
        wasActive := false;
      } else if !wasActive {
        cursor := if tailWorks then Tail(log) else 0;
        wasActive := true;
        snapTables, passed, told := tables, [], [];
        NothingTold(tables);
      } else {
        DispatchNew(queryWorks, up);
      }
      view := Next(view, Tick(tailWorks, queryWorks));
    }

    lemma NothingTold(tables: PfTables)
      ensures Reaction(tables, Select([], []), plugins, works) == tables
    {}
  }

  lemma SinceKept(s: Sys, t: Sys)
    requires t.log == s.log && t.snap == s.snap && t.cursor == s.cursor
    ensures Since(t) == Since(s)
  {}

  lemma SinceAppend(s: Sys, row: Entry)
    requires Inv(s) && row.rowid > Tail(s.log)
    ensures s.wasActive ==> Since(Next(s, Write(row))) == Since(s)
  {
    hide Between;
    AppendAscends(s.log, row);
    if s.wasActive {
      AppendKeepsBetween(s.log, [row], s.snap, s.cursor);
    }
  }

  lemma SinceTick(s: Sys, tailWorks: bool, queryWorks: bool)
    requires Inv(s)
    ensures s.running && s.wasActive ==>
      Since(Next(s, Tick(tailWorks, queryWorks))) == Since(s) + if queryWorks then Query(s.log, s.cursor) else []
    ensures s.running && !s.wasActive ==> Since(Next(s, Tick(tailWorks, queryWorks))) == []
  {
    hide Between, Query, NextCursor;
    if s.running && s.wasActive {
      BatchJoins(s.log, s.snap, s.cursor);
    } else if s.running {
      NothingBetween(s.log, if tailWorks then Tail(s.log) else 0);
    }
  }

  lemma AppendKeepsBetween(log: seq<Entry>, more: seq<Entry>, a: nat, b: nat)
    requires Ascending(log + more) && a <= b <= Tail(log)
    ensures Between(log + more, a, b) == Between(log, a, b)
  {
    hide Ascending, Cut;
    AppendKeepsCut(log, more, a);
    AppendKeepsCut(log, more, b);
  }

  lemma AppendRaisesTail(log: seq<Entry>, more: seq<Entry>)
    requires Ascending(log + more)
    ensures Tail(log) <= Tail(log + more)
  {
    var all := log + more;
    if log != [] && more != [] {
      assert all[|log| - 1] == log[|log| - 1];
    }
  }

  lemma BatchJoins(log: seq<Entry>, snap: nat, c: nat)
    requires Ascending(log) && snap <= c <= Tail(log)
    ensures c <= NextCursor(log, c) <= Tail(log)
    ensures Between(log, snap, NextCursor(log, c)) == Between(log, snap, c) + Query(log, c)
    ensures NextCursor(log, c) == if Query(log, c) == [] then c else Query(log, c)[|Query(log, c)| - 1].rowid
  {
    hide Between, Cut, Ascending;
    PollAdvances(log, c);
    CutMonotone(log, snap, c);
    CutMonotone(log, c, NextCursor(log, c));
    BetweenJoins(log, snap, c, NextCursor(log, c));
  }

  /** While a plugin was always running, the rows told are those in (snap, cursor], each once and ascending. */
  lemma DeliveredExactly(log: seq<Entry>, snap: nat, cursor: nat, passed: seq<Entry>, told: seq<bool>)
    requires Ascending(log) && snap <= cursor && passed == Between(log, snap, cursor)
    requires |told| == |passed| && forall i :: 0 <= i < |told| ==> told[i]
    ensures Ascending(Select(passed, told))
    ensures forall e :: e in Select(passed, told) <==> e in log && snap < e.rowid <= cursor
  {
    hide Between, Ascending;
    SelectAll(passed, told);
    BetweenMeaning(log, snap, cursor);
  }

  /** Between two cursors every row is there once, in ascending order, and no other row is. */
  lemma BetweenMeaning(log: seq<Entry>, a: nat, b: nat)
    requires Ascending(log) && a <= b
    ensures Ascending(Between(log, a, b))
    ensures forall e :: e in Between(log, a, b) <==> e in log && a < e.rowid <= b
  {
    hide Cut, Ascending;
    CutMonotone(log, a, b);
    var i, j := Cut(log, a), Cut(log, b);
    SliceAscends(log, i, j);
    forall e | e in log[i..j] ensures e in log && a < e.rowid <= b {
      var k :| 0 <= k < j - i && log[i..j][k] == e;
      CutAt(log, a, i + k);
      CutAt(log, b, i + k);
      assert log[i + k] == e;
    }
    forall e | e in log && a < e.rowid <= b ensures e in log[i..j] {
      var k :| 0 <= k < |log| && log[k] == e;
      CutAt(log, a, k);
      CutAt(log, b, k);
      assert log[i..j][k - i] == e;
    }
  }

  lemma CutAt(log: seq<Entry>, c: nat, i: nat)
    requires Ascending(log) && i < |log|
    ensures i < Cut(log, c) <==> log[i].rowid <= c
  {
    CutSpec(log, c);
  }

  lemma SliceAscends(log: seq<Entry>, i: nat, j: nat)
    requires Ascending(log) && i <= j <= |log|
    ensures Ascending(log[i..j])
  {}

  /** The documented promise that enabling a plugin replays no history: with the cursor snapped by the tail query,
    * no row written before is ever dispatched. It holds exactly when the query works or the log is empty.
    */
  lemma NoReplayExactly(log: seq<Entry>, tailWorks: bool, later: seq<Entry>, cursor: nat)
    requires Ascending(log + later) && Ascending(log)
    requires Tail(log) <= cursor
    ensures var snap := if tailWorks then Tail(log) else 0;
      (forall e :: e in log ==> e !in Between(log + later, snap, cursor)) <==> tailWorks || log == []
  {
    var snap := if tailWorks then Tail(log) else 0;
    BetweenMeaning(log + later, snap, cursor);
    if tailWorks {
      forall e | e in log ensures e.rowid <= Tail(log) {
        var k :| 0 <= k < |log| && log[k] == e;
      }
    } else if log != [] {
      assert log[0] in log && log[0] in log + later;
      assert 0 < log[0].rowid <= Tail(log);
    }
  }

  /** One failed tail query, and a row written before the plugin was enabled is dispatched to it. */
  lemma ReplayExample(e: Entry)
    requires e.rowid == 1
    ensures e in Between([e], 0, NextCursor([e], 0))
  {
    PollAdvances([e], 0);
    assert Cut([e], 0) == 0;
    assert Query([e], 0) == [e];
  }
}
