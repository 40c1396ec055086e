/** The multi-WAN apply coalescer (aifw-api/src/multiwan.rs:45-106 and its callers) as a step system:
  * any number of handlers that save and then mark, one background worker that drains the flags.
  */
module Coalescer {
  import opened Basics

  /** The two planes that have a dirty flag. */
  datatype Plane = Policies | Leaks

  /** One atomic action of a request handler. */
  datatype Act = Save(plane: Plane) | Store(plane: Plane) | Notify

  /** Where the worker stands in its loop. */
  datatype Pc =
    | Waiting      // in `notified().await`
    | Sleeping     // woken, in the one-second window; the policies flag is swapped next
    | ReadP        // the policies flag was set and cleared; the rebuild has not read the tables yet
    | ApplyP       // the policies rebuild has read the tables
    | SwapL        // the leaks flag is swapped next
    | ReadL
    | ApplyL

  /** What concerns one plane: the number of saves so far, the flag, how many saves the last rebuild
    * saw when it read the tables, whether it succeeded, and how many saves the kernel reflects.
    */
  datatype PlaneState = PlaneState(saved: nat, dirty: bool, seen: nat, ok: bool, kernel: nat)

  /** A handler: what it has yet to do, and whether it stands between a store and the notify after it. */
  datatype Task = Task(acts: seq<Act>, owes: bool)

  datatype State = State(p: PlaneState, l: PlaneState, permit: bool, pc: Pc, tasks: seq<Task>)

  function Of(s: State, x: Plane): PlaneState {
    if x == Policies then s.p else s.l
  }

  function With(s: State, x: Plane, v: PlaneState): State {
    if x == Policies then s.(p := v) else s.(l := v)
  }

  const FRESH := PlaneState(0, false, 0, true, 0)

  const INIT := State(FRESH, FRESH, false, Waiting, [])

  // ---------------------------------------------------------------- handlers

  /** After every save of a plane the flag of that plane is stored, and after every store a permit is
    * sent. A handler that returns early between a save and its mark breaks this.
    */
  predicate WellMarked(acts: seq<Act>) {
    if acts == [] then true
    else
      && WellMarked(acts[1..])
      && match acts[0]
         case Save(x) => Store(x) in acts[1..]
         case Store(_) => Notify in acts[1..]
         case Notify => true
  }

  function Mark(x: Plane): seq<Act> { [Store(x), Notify] }

  /** `create_policy`, `update_policy`, `delete_policy`, `toggle_policy`, `create_leak` and `delete_leak`. */
  function SaveThenMark(x: Plane): seq<Act> { [Save(x)] + Mark(x) }

  /** `import_config`: any sequence of saves, then both marks. */
  function ImportActs(saves: seq<Plane>): seq<Act> {
    seq(|saves|, i requires 0 <= i < |saves| => Save(saves[i])) + Mark(Policies) + Mark(Leaks)
  }

  /** How many of the steps of a walk write a row. */
  function Writes(walk: seq<bool>): nat {
    if walk == [] then 0 else Writes(walk[..|walk| - 1]) + if walk[|walk| - 1] then 1 else 0
  }

  /** A handler that walks over a list, writes a row at some of the elements, and returns at element `stop` because
    * something fails there, or at the end, after which it marks. `reorder_policies` walks over policies and writes
    * each; `seed_mgmt_escapes` walks over instances, looks each one up, and writes a leak for those without.
    */
  function WalkActs(x: Plane, walk: seq<bool>, stop: nat): seq<Act>
    requires stop <= |walk|
  {
    seq(Writes(walk[..stop]), _ => Save(x)) + (if stop == |walk| then Mark(x) else [])
  }

  lemma {:induction false} NoWrites(walk: seq<bool>)
    ensures Writes(walk) == 0 <==> true !in walk
  {
    if walk != [] {
      var n := |walk| - 1;
      NoWrites(walk[..n]);
      assert walk == walk[..n] + [walk[n]];
    }
  }

  lemma {:induction false} PrependSaves(saves: seq<Plane>, rest: seq<Act>)
    requires WellMarked(rest) && forall i :: 0 <= i < |saves| ==> Store(saves[i]) in rest
    ensures WellMarked(seq(|saves|, i requires 0 <= i < |saves| => Save(saves[i])) + rest)
  {
    var acts := seq(|saves|, i requires 0 <= i < |saves| => Save(saves[i])) + rest;
    if saves == [] {
      assert acts == rest;
    } else {
      var later := saves[1..];
      PrependSaves(later, rest);
      assert acts[1..] == seq(|later|, i requires 0 <= i < |later| => Save(later[i])) + rest;
    }
  }

  lemma MarksWellMarked(x: Plane, y: Plane)
    ensures WellMarked(Mark(x)) && WellMarked(Mark(x) + Mark(y)) && WellMarked(SaveThenMark(x))
    ensures Store(x) in Mark(x) + Mark(y) && Store(y) in Mark(x) + Mark(y)
  {
    var n: seq<Act> := [Notify];
    assert n[1..] == [];
    assert WellMarked(n);
    assert Mark(y)[1..] == n;
    assert WellMarked(Mark(y));
    assert ([Notify] + Mark(y))[1..] == Mark(y);
    assert WellMarked([Notify] + Mark(y));
    assert (Mark(x) + Mark(y))[1..] == [Notify] + Mark(y);
    assert Mark(x)[1..] == n;
    assert SaveThenMark(x)[1..] == Mark(x);
    assert (Mark(x) + Mark(y))[0] == Store(x) && (Mark(x) + Mark(y))[2] == Store(y);
  }

  /** Saving one plane and marking it, and importing any mix of saves, always mark what they save. */
  lemma HandlersWellMarked(x: Plane, saves: seq<Plane>)
    ensures WellMarked(SaveThenMark(x)) && WellMarked(ImportActs(saves))
  {
    hide WellMarked;
    MarksWellMarked(x, x);
    MarksWellMarked(Policies, Leaks);
    var both := Mark(Policies) + Mark(Leaks);
    assert forall i :: 0 <= i < |saves| ==> saves[i] == Policies || saves[i] == Leaks;
    PrependSaves(saves, both);
    assert ImportActs(saves) == seq(|saves|, i requires 0 <= i < |saves| => Save(saves[i])) + both;
  }

  /** The exceptions, decided exactly: a walk marks what it saved if and only if it reached its end or no element
    * before the stop was to be written.
    */
  lemma WalkWellMarkedExactly(x: Plane, walk: seq<bool>, stop: nat)
    requires stop <= |walk|
    ensures WellMarked(WalkActs(x, walk, stop)) <==> stop == |walk| || true !in walk[..stop]
  {
    var acts, n := WalkActs(x, walk, stop), Writes(walk[..stop]);
    NoWrites(walk[..stop]);
    if stop == |walk| {
      hide WellMarked;
      var all := seq(n, _ => x);
      MarksWellMarked(x, x);
      assert Mark(x)[0] == Store(x);
      assert forall i :: 0 <= i < |all| ==> all[i] == x;
      PrependSaves(all, Mark(x));
      assert acts == seq(|all|, i requires 0 <= i < |all| => Save(all[i])) + Mark(x);
    } else if n > 0 {
      assert acts[0] == Save(x) && Store(x) !in acts[1..];
    } else {
      assert acts == [];
    }
  }

  /** Every leak that was needed has been added, and yet the seeding does not mark: an instance that has its leak
    * already follows, and its lookup fails.
    */
  lemma SeedingExample()
    ensures WalkActs(Leaks, [true, false], 1) == [Save(Leaks)] && !WellMarked(WalkActs(Leaks, [true, false], 1))
  {
    var done := [true, false][..1];
    assert done == [true] && done[..0] == [];
    assert Writes(done) == 1;
    WalkWellMarkedExactly(Leaks, [true, false], 1);
  }

  // ---------------------------------------------------------------- steps

  datatype Step =
    | Spawn(acts: seq<Act>)   // a request arrives
    | Handler(i: nat)         // a handler takes its next action
    | Wake                    // the worker consumes the permit
    | Swap                    // the worker swaps the flag it has come to
    | Read                    // the rebuild reads the tables
    | Finish(ok: bool)        // the rebuild succeeds or fails

  predicate Enabled(s: State, step: Step) {
    match step
    case Spawn(acts) => WellMarked(acts)
    case Handler(i) => i < |s.tasks| && s.tasks[i].acts != []
    case Wake => s.pc == Waiting && s.permit
    case Swap => s.pc == Sleeping || s.pc == SwapL
    case Read => s.pc == ReadP || s.pc == ReadL
    case Finish(_) => s.pc == ApplyP || s.pc == ApplyL
  }

  function Perform(s: State, a: Act): State {
    match a
    case Save(x) => With(s, x, Of(s, x).(saved := Of(s, x).saved + 1))
    case Store(x) => With(s, x, Of(s, x).(dirty := true))
    case Notify => s.(permit := true)
  }

  function Advance(t: Task): Task
    requires t.acts != []
  {
    Task(t.acts[1..], t.acts[0].Store? || (t.owes && t.acts[0] != Notify))
  }

  function Next(s: State, step: Step): State
    requires Enabled(s, step)
  {
    match step
    case Spawn(acts) => s.(tasks := s.tasks + [Task(acts, false)])
    case Handler(i) => Perform(s, s.tasks[i].acts[0]).(tasks := s.tasks[i := Advance(s.tasks[i])])
    case Wake => s.(permit := false, pc := Sleeping)
    case Swap =>
      if s.pc == Sleeping then
        if s.p.dirty then s.(p := s.p.(dirty := false), pc := ReadP) else s.(pc := SwapL)
      else
        if s.l.dirty then s.(l := s.l.(dirty := false), pc := ReadL) else s.(pc := Waiting)
    case Read =>
      if s.pc == ReadP then s.(p := s.p.(seen := s.p.saved), pc := ApplyP)
      else s.(l := s.l.(seen := s.l.saved), pc := ApplyL)
    case Finish(ok) =>
      if s.pc == ApplyP then s.(p := Applied(s.p, ok), pc := SwapL) else s.(l := Applied(s.l, ok), pc := Waiting)
  }

  function Applied(v: PlaneState, ok: bool): PlaneState {
    v.(ok := ok, kernel := if ok then v.seen else v.kernel)
  }

  /** The kernel changes only when a rebuild succeeds, to what that rebuild read; a failed one leaves it alone. Saves
    * are counted by handlers only.
    */
  lemma KernelFollowsSuccess(s: State, step: Step, x: Plane)
    requires Enabled(s, step)
    ensures var applied := step == Finish(true) && s.pc == (if x == Policies then ApplyP else ApplyL);
      Of(Next(s, step), x).kernel == if applied then Of(s, x).seen else Of(s, x).kernel
    ensures var saves := step.Handler? && s.tasks[step.i].acts[0] == Save(x);
      Of(Next(s, step), x).saved == Of(s, x).saved + if saves then 1 else 0
    ensures var looks := step == Read && s.pc == (if x == Policies then ReadP else ReadL);
      Of(Next(s, step), x).seen == if looks then Of(s, x).saved else Of(s, x).seen
  {}

  // ---------------------------------------------------------------- invariant

  predicate SomeTaskHas(s: State, a: Act) {
    exists i :: 0 <= i < |s.tasks| && a in s.tasks[i].acts
  }

  /** Some handler has stored a flag and has yet to send the permit for it. */
  predicate SomeTaskOwes(s: State) {
    exists i :: 0 <= i < |s.tasks| && s.tasks[i].owes
  }

  predicate Sane(t: Task) {
    WellMarked(t.acts) && (t.owes ==> Notify in t.acts)
  }

  /** The worker will still swap this flag in its current turn. */
  predicate SwapAhead(s: State, x: Plane) {
    s.pc == Sleeping || (x == Leaks && s.pc in {ReadP, ApplyP, SwapL})
  }

  predicate Rebuilding(s: State, x: Plane) {
    s.pc == (if x == Policies then ReadP else ReadL)
  }

  /** A set flag is never forgotten: a permit is stored, or the worker has yet to swap it, or a
    * handler stands between its store and its notify.
    */
  predicate NoLostWakeup(s: State, x: Plane) {
    Of(s, x).dirty ==> s.permit || SwapAhead(s, x) || SomeTaskOwes(s)
  }

  /** A save not yet seen by a rebuild is on its way: the flag is set, or a rebuild is about to read,
    * or a handler has yet to set the flag.
    */
  predicate NoLostSave(s: State, x: Plane) {
    && Of(s, x).seen <= Of(s, x).saved
    && (Of(s, x).seen < Of(s, x).saved ==> Of(s, x).dirty || Rebuilding(s, x) || SomeTaskHas(s, Store(x)))
  }

  predicate Applying(s: State, x: Plane) {
    s.pc == (if x == Policies then ApplyP else ApplyL)
  }

  /** After a successful rebuild the kernel holds what that rebuild read. */
  predicate KernelMatches(s: State, x: Plane) {
    Of(s, x).ok && !Applying(s, x) ==> Of(s, x).kernel == Of(s, x).seen
  }

  predicate Inv(s: State) {
    && (forall i :: 0 <= i < |s.tasks| ==> Sane(s.tasks[i]))
    && (forall x: Plane :: NoLostWakeup(s, x) && NoLostSave(s, x) && KernelMatches(s, x))
  }

  lemma HandlerKeepsOthers(s: State, i: nat, a: Act)
    requires i < |s.tasks| && s.tasks[i].acts != [] && SomeTaskHas(s, a) && a != s.tasks[i].acts[0]
    ensures SomeTaskHas(Next(s, Handler(i)), a)
  {
    var j :| 0 <= j < |s.tasks| && a in s.tasks[j].acts;
    var s' := Next(s, Handler(i));
    if j == i {
      assert s.tasks[i].acts == [s.tasks[i].acts[0]] + s.tasks[i].acts[1..];
      assert a in s'.tasks[i].acts;
    } else {
      assert a in s'.tasks[j].acts;
    }
  }

  lemma HandlerKeepsOwing(s: State, i: nat)
    requires i < |s.tasks| && s.tasks[i].acts != [] && SomeTaskOwes(s) && s.tasks[i].acts[0] != Notify
    ensures SomeTaskOwes(Next(s, Handler(i)))
  {
    var j :| 0 <= j < |s.tasks| && s.tasks[j].owes;
    assert Next(s, Handler(i)).tasks[j].owes;
  }

  lemma {:induction false} AdvanceSane(t: Task)
    requires Sane(t) && t.acts != []
    ensures Sane(Advance(t))
    ensures t.acts[0].Save? ==> Store(t.acts[0].plane) in Advance(t).acts
  {
    assert t.acts == [t.acts[0]] + t.acts[1..];
  }

  lemma {:induction false} HandlerStep(s: State, i: nat)
    requires Inv(s) && Enabled(s, Handler(i))
    ensures Inv(Next(s, Handler(i)))
  {
    hide WellMarked, Sane;
    var s' := Next(s, Handler(i));
    var a := s.tasks[i].acts[0];
    AdvanceSane(s.tasks[i]);
    forall x: Plane ensures NoLostWakeup(s', x) && NoLostSave(s', x) && KernelMatches(s', x) {
      assert NoLostWakeup(s, x) && NoLostSave(s, x) && KernelMatches(s, x);
      if a == Save(x) {
        assert Store(x) in s'.tasks[i].acts;
      } else if a != Store(x) && SomeTaskHas(s, Store(x)) {
        HandlerKeepsOthers(s, i, Store(x));
      }
      if a.Store? {
        assert s'.tasks[i].owes;
      } else if a != Notify && SomeTaskOwes(s) {
        HandlerKeepsOwing(s, i);
      }
    }
  }

  lemma {:induction false} SpawnStep(s: State, acts: seq<Act>)
    requires Inv(s) && WellMarked(acts)
    ensures Inv(Next(s, Spawn(acts)))
  {
    var s' := Next(s, Spawn(acts));
    assert Sane(Task(acts, false));
    hide Sane, WellMarked;
    forall x: Plane ensures NoLostWakeup(s', x) && NoLostSave(s', x) && KernelMatches(s', x) {
      assert NoLostWakeup(s, x) && NoLostSave(s, x) && KernelMatches(s, x);
      if SomeTaskHas(s, Store(x)) {
        var j :| 0 <= j < |s.tasks| && Store(x) in s.tasks[j].acts;
        assert Store(x) in s'.tasks[j].acts;
      }
      if SomeTaskOwes(s) {
        var j :| 0 <= j < |s.tasks| && s.tasks[j].owes;
        assert s'.tasks[j].owes;
      }
    }
  }

  lemma {:induction false} WorkerStep(s: State, step: Step)
    requires Inv(s) && Enabled(s, step) && !step.Spawn? && !step.Handler?
    ensures Inv(Next(s, step))
  {
    var s' := Next(s, step);
    forall x: Plane ensures NoLostWakeup(s', x) && NoLostSave(s', x) && KernelMatches(s', x) {
      assert NoLostWakeup(s, x) && NoLostSave(s, x) && KernelMatches(s, x);
      assert SomeTaskOwes(s') == SomeTaskOwes(s);
      assert SomeTaskHas(s', Store(x)) == SomeTaskHas(s, Store(x));
    }
  }

  /** Every step of every handler and of the worker keeps the invariant. */
  lemma StepKeepsInv(s: State, step: Step)
    requires Inv(s) && Enabled(s, step)
    ensures Inv(Next(s, step))
  {
    match step
    case Spawn(acts) => SpawnStep(s, acts);
    case Handler(i) => HandlerStep(s, i);
    case _ => WorkerStep(s, step);
  }

  // ---------------------------------------------------------------- runs

  /** The states of a run from `s`, when every step is enabled in its turn. */
  predicate Run(s: State, steps: seq<Step>, end: State)
    decreases |steps|
  {
    if steps == [] then s == end
    else Enabled(s, steps[0]) && Run(Next(s, steps[0]), steps[1..], end)
  }

  /** No request is being handled, no permit is stored and the worker waits. */
  predicate Quiescent(s: State) {
    s.pc == Waiting && !s.permit && forall i :: 0 <= i < |s.tasks| ==> s.tasks[i].acts == []
  }

  lemma {:induction false} RunKeepsInv(s: State, steps: seq<Step>, end: State)
    requires Inv(s) && Run(s, steps, end)
    ensures Inv(end)
    decreases |steps|
  {
    if steps != [] {
      StepKeepsInv(s, steps[0]);
      RunKeepsInv(Next(s, steps[0]), steps[1..], end);
    }
  }

  /** In every interleaving: once things are quiet no flag is left set, the last rebuild of each plane
    * read its tables after the last save, and if it succeeded the kernel reflects every save.
    */
  lemma {:induction false} NoUpdateLost(steps: seq<Step>, end: State)
    requires Run(INIT, steps, end) && Quiescent(end)
    ensures forall x: Plane :: !Of(end, x).dirty && Of(end, x).seen == Of(end, x).saved
    ensures forall x: Plane :: Of(end, x).ok ==> Of(end, x).kernel == Of(end, x).saved
  {
    RunKeepsInv(INIT, steps, end);
    forall x: Plane
      ensures !Of(end, x).dirty && Of(end, x).seen == Of(end, x).saved
      ensures Of(end, x).ok ==> Of(end, x).kernel == Of(end, x).saved
    {
      assert NoLostWakeup(end, x) && NoLostSave(end, x) && KernelMatches(end, x);
    }
  }

  /** Every save has been seen by a rebuild and has reached the kernel. */
  predicate UpToDate(s: State) {
    forall x: Plane :: Of(s, x).kernel == Of(s, x).seen == Of(s, x).saved
  }

  /** The state in which a handler that will stop half-way has just arrived. */
  function Arrived(s: State, acts: seq<Act>): State {
    s.(tasks := s.tasks + [Task(acts, false)])
  }

  lemma {:induction false} SavesRun(s: State, x: Plane, n: nat) returns (steps: seq<Step>, end: State)
    requires s.tasks != [] && s.tasks[|s.tasks| - 1].acts == seq(n, _ => Save(x))
    ensures Run(s, steps, end) && |steps| == n
    ensures end.pc == s.pc && end.permit == s.permit && |end.tasks| == |s.tasks|
    ensures forall i :: 0 <= i < |s.tasks| - 1 ==> end.tasks[i] == s.tasks[i]
    ensures end.tasks[|s.tasks| - 1].acts == []
    ensures Of(end, x) == Of(s, x).(saved := Of(s, x).saved + n)
    decreases n
  {
    var last := |s.tasks| - 1;
    if n == 0 {
      steps, end := [], s;
    } else {
      var s' := Next(s, Handler(last));
      assert s.tasks[last].acts[1..] == seq(n - 1, _ => Save(x));
      var rest;
      rest, end := SavesRun(s', x, n - 1);
      steps := [Handler(last)] + rest;
      assert steps[1..] == rest;
    }
  }

  /** Marking what is saved is needed: from any quiet, up-to-date state, every walk that stops short after writing
    * something runs to a quiet state whose kernel misses exactly what it saved.
    */
  lemma PartialWalkLost(s: State, x: Plane, walk: seq<bool>, stop: nat) returns (steps: seq<Step>, end: State)
    requires Quiescent(s) && UpToDate(s) && stop < |walk| && true in walk[..stop]
    ensures Run(Arrived(s, WalkActs(x, walk, stop)), steps, end)
    ensures Quiescent(end) && Of(end, x).kernel == Of(end, x).seen
    ensures Of(end, x).kernel + Writes(walk[..stop]) == Of(end, x).saved && Writes(walk[..stop]) > 0
  {
    var n := Writes(walk[..stop]);
    NoWrites(walk[..stop]);
    var s' := Arrived(s, WalkActs(x, walk, stop));
    assert WalkActs(x, walk, stop) == seq(n, _ => Save(x));
    assert Of(s', x) == Of(s, x) && Of(s, x).kernel == Of(s, x).seen == Of(s, x).saved;
    steps, end := SavesRun(s', x, n);
  }

  // ---------------------------------------------------------------- quiescence is reached

  function Work(tasks: seq<Task>): nat {
    if tasks == [] then 0 else |tasks[0].acts| + Work(tasks[1..])
  }

  function Left(pc: Pc): nat {
    match pc
    case Waiting => 0
    case ApplyL => 1
    case ReadL => 2
    case SwapL => 3
    case ApplyP => 4
    case ReadP => 5
    case Sleeping => 6
  }

  /** A bound on the steps that remain when no further request arrives. */
  function Rank(s: State): nat {
    8 * Work(s.tasks) + (if s.permit then 7 else 0) + Left(s.pc)
  }

  lemma {:induction false} WorkAt(tasks: seq<Task>, i: nat)
    requires i < |tasks| && tasks[i].acts != []
    ensures Work(tasks[i := Advance(tasks[i])]) + 1 == Work(tasks)
  {
    var t := tasks[i := Advance(tasks[i])];
    if i == 0 {
      assert t[1..] == tasks[1..];
    } else {
      assert t[1..] == tasks[1..][i - 1 := Advance(tasks[i])];
      WorkAt(tasks[1..], i - 1);
    }
  }

  /** Every step but a new request lowers the rank, so no schedule can put the rebuild off for ever. */
  lemma StepLowersRank(s: State, step: Step)
    requires Enabled(s, step) && !step.Spawn?
    ensures Rank(Next(s, step)) < Rank(s)
  {
    if step.Handler? {
      WorkAt(s.tasks, step.i);
    }
  }

  /** A run without new requests is no longer than the rank it starts from. */
  lemma {:induction false} RunBounded(s: State, steps: seq<Step>, end: State)
    requires Run(s, steps, end) && forall i :: 0 <= i < |steps| ==> !steps[i].Spawn?
    ensures |steps| + Rank(end) <= Rank(s)
    decreases |steps|
  {
    if steps != [] {
      StepLowersRank(s, steps[0]);
      RunBounded(Next(s, steps[0]), steps[1..], end);
    }
  }

  /** Only a quiet state has no step left to take. */
  lemma StuckIsQuiescent(s: State)
    ensures Quiescent(s) <==> forall step: Step :: Enabled(s, step) ==> step.Spawn?
  {
    if !Quiescent(s) {
      if i :| 0 <= i < |s.tasks| && s.tasks[i].acts != [] {
        assert Enabled(s, Handler(i));
      } else if s.pc == Waiting {
        assert Enabled(s, Wake);
      } else if s.pc == Sleeping || s.pc == SwapL {
        assert Enabled(s, Swap);
      } else if s.pc == ReadP || s.pc == ReadL {
        assert Enabled(s, Read);
      } else {
        assert Enabled(s, Finish(true));
      }
    }
  }
}
