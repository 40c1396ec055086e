/** The debounced auto-snapshot (aifw-api/src/backup.rs:2553-2624) as a step system: requests that have
  * changed the configuration, and the background workers they schedule.
  */
module AutoSnapshot {
  import opened Basics
  import Decimal

  /** A successful mutating request that is not on the skip list; `change` numbers its effect. */
  datatype Request = Responded(change: nat, comment: string) | Recorded(change: nat)

  datatype Worker =
    | ToSpawn                                          // its request holds the duty to spawn it
    | Sleeping                                         // in the five-second debounce
    | Drained(count: nat, comment: string)             // the pending state is taken, the build not begun
    | Built(count: nat, comment: string, upTo: nat)    // the build began when `upTo` changes had been made

  /** `scheduled`, `coalesced` and `lastComment` are the fields of `AutoSnapshotPending`; `changes` counts the changes
    * made so far, and `log` lists the comments of the requests recorded so far, in the order of the lock.
    */
  datatype State = State(
    scheduled: bool, coalesced: nat, lastComment: string,
    requests: seq<Request>, workers: seq<Worker>, changes: nat, log: seq<string>
  )

  const INIT := State(false, 0, "", [], [], 0, [])

  datatype Step =
    | OtherChange              // a change that does not qualify (skip list, another process)
    | Change(comment: string)  // a handler has changed the configuration and answered with success
    | Record(i: nat)           // the request takes the lock on the pending state
    | Spawn(w: nat)
    | Drain(w: nat)            // the worker wakes and takes the lock
    | Build(w: nat)            // the worker begins to read the configuration

  predicate Enabled(s: State, step: Step) {
    match step
    case OtherChange => true
    case Change(_) => true
    case Record(i) => i < |s.requests| && s.requests[i].Responded?
    case Spawn(w) => w < |s.workers| && s.workers[w].ToSpawn?
    case Drain(w) => w < |s.workers| && s.workers[w].Sleeping?
    case Build(w) => w < |s.workers| && s.workers[w].Drained?
  }

  /** The comment of the stored version. */
  function VersionComment(count: nat, last: string): string {
    if count > 1 then last + " (+" + Decimal.Print(count - 1) + " coalesced)" else last
  }

  function Next(s: State, step: Step): State
    requires Enabled(s, step)
  {
    match step
    case OtherChange => s.(changes := s.changes + 1)
    case Change(comment) =>
      s.(changes := s.changes + 1, requests := s.requests + [Responded(s.changes + 1, comment)])
    case Record(i) =>
      s.(requests := s.requests[i := Recorded(s.requests[i].change)],
         coalesced := s.coalesced + 1,
         lastComment := s.requests[i].comment,
         scheduled := true,
         workers := if s.scheduled then s.workers else s.workers + [ToSpawn],
         log := s.log + [s.requests[i].comment])
    case Spawn(w) => s.(workers := s.workers[w := Sleeping])
    case Drain(w) =>
      s.(scheduled := false, coalesced := 0, lastComment := "",
         workers := s.workers[w := Drained(s.coalesced, s.lastComment)])
    case Build(w) =>
      var d := s.workers[w];
      s.(workers := s.workers[w := Built(d.count, VersionComment(d.count, d.comment), s.changes)])
  }

  // ---------------------------------------------------------------- invariant

  /** Scheduled and not yet drained. */
  predicate Active(s: State, w: nat) {
    w < |s.workers| && (s.workers[w].ToSpawn? || s.workers[w].Sleeping?)
  }

  /** What one worker has taken, and what all of them have. */
  function Count(w: Worker): nat {
    if w.Drained? || w.Built? then w.count else 0
  }

  function Taken(workers: seq<Worker>): nat {
    if workers == [] then 0 else Taken(workers[..|workers| - 1]) + Count(workers[|workers| - 1])
  }

  function CountRecorded(requests: seq<Request>): nat {
    if requests == [] then 0
    else CountRecorded(requests[..|requests| - 1]) + if requests[|requests| - 1].Recorded? then 1 else 0
  }

  /** The flag is set exactly while there is one worker yet to drain, which is the latest. */
  ghost predicate OneWorker(s: State) {
    && (s.scheduled <==> |s.workers| > 0 && Active(s, |s.workers| - 1))
    && forall w: nat :: Active(s, w) ==> w == |s.workers| - 1
  }

  /** No mutation is counted twice or dropped, and nothing is pending without a worker to take it. */
  predicate Conserved(s: State) {
    && Taken(s.workers) + s.coalesced == |s.log| == CountRecorded(s.requests)
    && (s.scheduled <==> s.coalesced > 0)
    && s.lastComment == if s.coalesced > 0 then s.log[|s.log| - 1] else ""
  }

  /** A worker that has drained took at least one, and the comment of the latest request it took. */
  predicate TookLatest(s: State, w: nat)
    requires w < |s.workers|
  {
    Count(s.workers[w]) > 0 && Taken(s.workers[..w + 1]) <= |s.log| && Taken(s.workers[..w + 1]) > 0
    && var latest := s.log[Taken(s.workers[..w + 1]) - 1];
       s.workers[w].comment == if s.workers[w].Drained? then latest else VersionComment(s.workers[w].count, latest)
  }

  ghost predicate AllTookLatest(s: State) {
    forall w: nat :: w < |s.workers| && !Active(s, w) ==> TookLatest(s, w)
  }

  /** The change is known, and once recorded it lies before the start of a build, or one is still to start. */
  predicate Covered(s: State, r: Request) {
    && r.change <= s.changes
    && (r.Recorded? ==> exists w :: 0 <= w < |s.workers| && (s.workers[w].Built? ==> r.change <= s.workers[w].upTo))
  }

  ghost predicate AllCovered(s: State) {
    forall i :: 0 <= i < |s.requests| ==> Covered(s, s.requests[i])
  }

  ghost predicate Inv(s: State) {
    OneWorker(s) && Conserved(s) && AllTookLatest(s) && AllCovered(s)
  }

  // ---------------------------------------------------------------- steps keep it

  lemma {:induction false} TakenUpdate(workers: seq<Worker>, w: nat, new': Worker)
    requires w < |workers|
    ensures Taken(workers[w := new']) + Count(workers[w]) == Taken(workers) + Count(new')
    ensures forall v: nat :: v <= w ==> Taken(workers[w := new'][..v]) == Taken(workers[..v])
    ensures Taken(workers[..w + 1]) == Taken(workers[..w]) + Count(workers[w])
  {
    var n := |workers| - 1;
    assert forall v: nat :: v <= w ==> workers[w := new'][..v] == workers[..v];
    assert workers[..w + 1][..w] == workers[..w];
    if w < n {
      assert workers[w := new'][..n] == workers[..n][w := new'];
      TakenUpdate(workers[..n], w, new');
    } else {
      assert workers[w := new'][..n] == workers[..n];
    }
  }

  lemma {:induction false} RecordedUpdate(requests: seq<Request>, i: nat, r: Request)
    requires i < |requests| && requests[i].Responded? && r.Recorded?
    ensures CountRecorded(requests[i := r]) == CountRecorded(requests) + 1
  {
    var n := |requests| - 1;
    if i < n {
      assert requests[i := r][..n] == requests[..n][i := r];
      RecordedUpdate(requests[..n], i, r);
    } else {
      assert requests[i := r][..n] == requests[..n];
    }
  }

  lemma {:induction false} TakenSnoc(workers: seq<Worker>, w: Worker)
    ensures Taken(workers + [w]) == Taken(workers) + Count(w)
  {
    assert (workers + [w])[..|workers|] == workers;
  }

  /** Further workers, and further entries of the log, change nothing for one that has drained. */
  lemma StillTookLatest(s: State, t: State, w: nat)
    requires w < |s.workers| <= |t.workers| && TookLatest(s, w)
    requires t.workers[..w + 1] == s.workers[..w + 1] && s.log <= t.log
    ensures TookLatest(t, w)
  {
    hide Taken, VersionComment;
    assert t.workers[w] == t.workers[..w + 1][w] == s.workers[w];
  }

  lemma {:induction false} RecordStep(s: State, i: nat)
    requires Inv(s) && Enabled(s, Record(i))
    ensures Inv(Next(s, Record(i)))
  {
    hide Taken, CountRecorded, TookLatest;
    var t := Next(s, Record(i));
    RecordedUpdate(s.requests, i, Recorded(s.requests[i].change));
    TakenSnoc(s.workers, ToSpawn);
    var last := |t.workers| - 1;
    assert Active(t, last) by {
      if s.scheduled { assert Active(s, last); }
    }
    forall w: nat | Active(t, w) ensures w == last {
      if w < |s.workers| { assert Active(s, w); }
    }
    forall w: nat | w < |t.workers| && !Active(t, w) ensures TookLatest(t, w) {
      assert w < |s.workers| && !Active(s, w);
      assert t.workers[..w + 1] == s.workers[..w + 1];
      StillTookLatest(s, t, w);
    }
    forall j | 0 <= j < |t.requests| ensures Covered(t, t.requests[j]) {
      assert Covered(s, s.requests[j]);
      assert !t.workers[last].Built?;
    }
  }

  lemma {:induction false} WorkerStep(s: State, step: Step, w: nat)
    requires Inv(s) && Enabled(s, step)
    requires (step.Spawn? || step.Drain? || step.Build?) && w == step.w
    ensures Inv(Next(s, step))
  {
    hide Taken, CountRecorded, TookLatest, VersionComment;
    var t := Next(s, step);
    TakenUpdate(s.workers, w, t.workers[w]);
    forall v: nat ensures Active(t, v) == if v == w then step.Spawn? else Active(s, v) {}
    if !step.Build? {
      assert Active(s, w);
    }
    forall v: nat | v < |t.workers| && !Active(t, v) ensures TookLatest(t, v) {
      if v != w {
        assert !Active(s, v) && TookLatest(s, v);
        OthersTookLatest(s, t, v, w);
      } else {
        SelfTookLatest(s, step, w);
      }
    }
    forall j | 0 <= j < |t.requests| ensures Covered(t, t.requests[j]) {
      assert Covered(s, s.requests[j]);
      if s.requests[j].Recorded? {
        var v :| 0 <= v < |s.workers| && (s.workers[v].Built? ==> s.requests[j].change <= s.workers[v].upTo);
        assert t.workers[v].Built? ==> s.requests[j].change <= t.workers[v].upTo;
      }
    }
  }

  lemma OthersTookLatest(s: State, t: State, v: nat, w: nat)
    requires v < |s.workers| && w < |s.workers| && v != w && TookLatest(s, v)
    requires |t.workers| == |s.workers| && t.workers == s.workers[w := t.workers[w]] && t.log == s.log
    requires Count(t.workers[w]) == Count(s.workers[w]) || v < w
    ensures TookLatest(t, v)
  {
    hide VersionComment;
    if w < v {
      assert t.workers[..v + 1] == s.workers[..v + 1][w := t.workers[w]];
      TakenUpdate(s.workers[..v + 1], w, t.workers[w]);
    } else {
      assert t.workers[..v + 1] == s.workers[..v + 1];
    }
  }

  lemma SelfTookLatest(s: State, step: Step, w: nat)
    requires Inv(s) && Enabled(s, step) && (step.Drain? || step.Build?) && w == step.w
    ensures TookLatest(Next(s, step), w)
  {
    hide CountRecorded, Taken, VersionComment, TookLatest, AllCovered, AllTookLatest;
    var t := Next(s, step);
    TakenUpdate(s.workers, w, t.workers[w]);
    TakenUpdate(t.workers, w, t.workers[w]);
    if step.Drain? {
      assert Active(s, w);
      assert t.workers[..w + 1] == t.workers;
      DrainTook(t, w);
    } else {
      assert !Active(s, w) && TookLatest(s, w) by { TookAt(s, w); }
      BuildTook(s, t, w);
    }
  }

  lemma TookAt(s: State, w: nat)
    requires AllTookLatest(s) && w < |s.workers| && !Active(s, w)
    ensures TookLatest(s, w)
  {}

  lemma DrainTook(t: State, w: nat)
    requires w < |t.workers| && t.workers[w].Drained? && t.workers[w].count > 0
    requires Taken(t.workers[..w + 1]) == |t.log| > 0 && t.workers[w].comment == t.log[|t.log| - 1]
    ensures TookLatest(t, w)
  {
    hide Taken, VersionComment;
  }

  lemma BuildTook(s: State, t: State, w: nat)
    requires w < |s.workers| == |t.workers| && TookLatest(s, w) && s.workers[w].Drained? && t.workers[w].Built?
    requires t.log == s.log && Taken(t.workers[..w + 1]) == Taken(s.workers[..w + 1])
    requires t.workers[w].count == s.workers[w].count
    requires t.workers[w].comment == VersionComment(s.workers[w].count, s.workers[w].comment)
    ensures TookLatest(t, w)
  {
    hide Taken, VersionComment;
  }

  lemma {:induction false} ChangeStep(s: State, step: Step)
    requires Inv(s) && (step.OtherChange? || step.Change?)
    ensures Inv(Next(s, step))
  {
    hide Taken, TookLatest, CountRecorded;
    var t := Next(s, step);
    assert forall v: nat :: Active(t, v) == Active(s, v);
    forall v: nat | v < |t.workers| && !Active(t, v) ensures TookLatest(t, v) {
      TookAt(s, v);
      StillTookLatest(s, t, v);
    }
    forall j | 0 <= j < |t.requests| ensures Covered(t, t.requests[j]) {
      if j < |s.requests| { assert Covered(s, s.requests[j]); }
    }
    if step.Change? {
      NotYetRecorded(s.requests, t.requests[|s.requests|]);
    }
  }

  lemma NotYetRecorded(requests: seq<Request>, r: Request)
    requires r.Responded?
    ensures CountRecorded(requests + [r]) == CountRecorded(requests)
  {
    assert (requests + [r])[..|requests|] == requests;
  }

  lemma {:induction false} StepKeepsInv(s: State, step: Step)
    requires Inv(s) && Enabled(s, step)
    ensures Inv(Next(s, step))
  {
    hide Inv, Next;
    match step
    case Record(i) => RecordStep(s, i);
    case Spawn(w) => WorkerStep(s, step, w);
    case Drain(w) => WorkerStep(s, step, w);
    case Build(w) => WorkerStep(s, step, w);
    case _ => ChangeStep(s, step);
  }

  // ---------------------------------------------------------------- runs

  predicate Run(s: State, steps: seq<Step>, end: State)
    decreases |steps|
  {
    if steps == [] then s == end
    else Enabled(s, steps[0]) && Run(Next(s, steps[0]), steps[1..], end)
  }

  lemma {:induction false} RunKeepsInv(s: State, steps: seq<Step>, end: State)
    requires Inv(s) && Run(s, steps, end)
    ensures Inv(end)
    decreases |steps|
  {
    hide Inv, Next, Enabled;
    if steps != [] {
      StepKeepsInv(s, steps[0]);
      RunKeepsInv(Next(s, steps[0]), steps[1..], end);
    }
  }

  lemma InitInv()
    ensures Inv(INIT)
  {}

  lemma {:induction false} Reachable(steps: seq<Step>, end: State)
    requires Run(INIT, steps, end)
    ensures Inv(end)
  {
    hide *;
    InitInv();
    RunKeepsInv(INIT, steps, end);
  }

  /** In every interleaving: `scheduled` holds exactly while one worker has yet to drain, and the counts taken by the
    * workers and the pending one add up to the qualifying mutations.
    */
  lemma {:induction false} Debounced(steps: seq<Step>, end: State)
    requires Run(INIT, steps, end)
    ensures end.scheduled <==> exists w: nat :: Active(end, w)
    ensures forall v: nat, w: nat :: Active(end, v) && Active(end, w) ==> v == w
    ensures Taken(end.workers) + end.coalesced == CountRecorded(end.requests) == |end.log|
  {
    hide Taken, CountRecorded;
    Reachable(steps, end);
    if end.scheduled {
      assert Active(end, |end.workers| - 1);
    }
  }

  /** The workers take the recorded requests in order, each at least one. The version a worker stores carries the
    * comment of the latest request it took and, if there were more, how many.
    */
  lemma {:induction false} VersionsNameLatest(steps: seq<Step>, end: State, w: nat)
    requires Run(INIT, steps, end) && w < |end.workers| && end.workers[w].Built?
    ensures var before, count := Taken(end.workers[..w]), end.workers[w].count;
      && 0 < count && before + count <= |end.log|
      && end.workers[w].comment == if count == 1 then end.log[before] else
           end.log[before + count - 1] + " (+" + Decimal.Print(count - 1) + " coalesced)"
  {
    hide *;
    Reachable(steps, end);
    BuiltTook(end, w);
  }

  lemma BuiltTook(s: State, w: nat)
    requires Inv(s) && w < |s.workers| && s.workers[w].Built?
    ensures var before, count := Taken(s.workers[..w]), s.workers[w].count;
      && 0 < count && before + count <= |s.log|
      && s.workers[w].comment == if count == 1 then s.log[before] else
           s.log[before + count - 1] + " (+" + Decimal.Print(count - 1) + " coalesced)"
  {
    hide Taken, Decimal.Print, OneWorker, Conserved, AllCovered;
    assert !Active(s, w);
    TookAt(s, w);
    TakenUpdate(s.workers, w, s.workers[w]);
  }

  /** Once everything is quiet, every qualifying change lies before the start of the build of some worker. */
  lemma {:induction false} EveryChangeIsBuilt(steps: seq<Step>, end: State)
    requires Run(INIT, steps, end) && Quiet(end)
    ensures forall i :: 0 <= i < |end.requests| ==>
      exists w :: 0 <= w < |end.workers| && end.workers[w].Built? && end.requests[i].change <= end.workers[w].upTo
    ensures end.coalesced == 0 && Taken(end.workers) == |end.requests|
  {
    hide Taken;
    Reachable(steps, end);
    AllRecorded(end.requests);
    assert |end.workers| > 0 ==> !Active(end, |end.workers| - 1);
    forall i | 0 <= i < |end.requests|
      ensures exists w :: 0 <= w < |end.workers| && end.workers[w].Built? && end.requests[i].change <= end.workers[w].upTo
    {
      assert Covered(end, end.requests[i]);
    }
  }

  lemma {:induction false} AllRecorded(requests: seq<Request>)
    requires forall i :: 0 <= i < |requests| ==> requests[i].Recorded?
    ensures CountRecorded(requests) == |requests|
  {
    if requests != [] {
      AllRecorded(requests[..|requests| - 1]);
    }
  }

  // ---------------------------------------------------------------- quiet is reached

  /** Every request is recorded and every worker has begun its build. */
  predicate Quiet(s: State) {
    && (forall i :: 0 <= i < |s.requests| ==> s.requests[i].Recorded?)
    && (forall w :: 0 <= w < |s.workers| ==> s.workers[w].Built?)
  }

  function RequestWork(requests: seq<Request>): nat {
    if requests == [] then 0
    else RequestWork(requests[..|requests| - 1]) + if requests[|requests| - 1].Responded? then 4 else 0
  }

  function Left(w: Worker): nat {
    match w
    case ToSpawn => 3
    case Sleeping => 2
    case Drained(_, _) => 1
    case Built(_, _, _) => 0
  }

  function WorkerWork(workers: seq<Worker>): nat {
    if workers == [] then 0 else WorkerWork(workers[..|workers| - 1]) + Left(workers[|workers| - 1])
  }

  /** A bound on the steps that remain when nothing more changes. */
  function Rank(s: State): nat {
    RequestWork(s.requests) + WorkerWork(s.workers)
  }

  lemma {:induction false} RequestDone(requests: seq<Request>, i: nat, r: Request)
    requires i < |requests| && requests[i].Responded? && r.Recorded?
    ensures RequestWork(requests[i := r]) + 4 == RequestWork(requests)
  {
    var n := |requests| - 1;
    if i < n {
      assert requests[i := r][..n] == requests[..n][i := r];
      RequestDone(requests[..n], i, r);
    } else {
      assert requests[i := r][..n] == requests[..n];
    }
  }

  lemma {:induction false} WorkerDone(workers: seq<Worker>, i: nat, w: Worker)
    requires i < |workers|
    ensures WorkerWork(workers[i := w]) + Left(workers[i]) == WorkerWork(workers) + Left(w)
  {
    var n := |workers| - 1;
    if i < n {
      assert workers[i := w][..n] == workers[..n][i := w];
      WorkerDone(workers[..n], i, w);
    } else {
      assert workers[i := w][..n] == workers[..n];
    }
  }

  /** Every step but a new change lowers the rank. */
  lemma StepLowersRank(s: State, step: Step)
    requires Enabled(s, step) && !step.Change? && !step.OtherChange?
    ensures Rank(Next(s, step)) < Rank(s)
  {
    match step
    case Record(i) =>
      RequestDone(s.requests, i, Recorded(s.requests[i].change));
      assert (s.workers + [ToSpawn])[..|s.workers|] == s.workers;
    case Spawn(w) => WorkerDone(s.workers, w, Sleeping);
    case Drain(w) => WorkerDone(s.workers, w, Drained(s.coalesced, s.lastComment));
    case Build(w) => WorkerDone(s.workers, w, Next(s, step).workers[w]);
  }

  /** A run without further changes is no longer than the rank it starts from. */
  lemma {:induction false} RunBounded(s: State, steps: seq<Step>, end: State)
    requires Run(s, steps, end) && forall i :: 0 <= i < |steps| ==> !steps[i].Change? && !steps[i].OtherChange?
    ensures |steps| + Rank(end) <= Rank(s)
    decreases |steps|
  {
    if steps != [] {
      StepLowersRank(s, steps[0]);
      RunBounded(Next(s, steps[0]), steps[1..], end);
    }
  }

  /** The states in which only a new change can happen are exactly the quiet ones. */
  lemma StuckIsQuiet(s: State)
    ensures Quiet(s) <==> forall step: Step :: Enabled(s, step) ==> step.Change? || step.OtherChange?
  {
    if !Quiet(s) {
      if i :| 0 <= i < |s.requests| && s.requests[i].Responded? {
        assert Enabled(s, Record(i));
      } else {
        var w :| 0 <= w < |s.workers| && !s.workers[w].Built?;
        match s.workers[w]
        case ToSpawn => assert Enabled(s, Spawn(w));
        case Sleeping => assert Enabled(s, Drain(w));
        case Drained(_, _) => assert Enabled(s, Build(w));
      }
    }
  }
}
