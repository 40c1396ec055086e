/** The commit-confirm window (aifw-api/src/backup.rs:456-531) as a step system over armers, accepts
  * and rollback timers. `Config` is whatever a snapshot decodes to.
  */
module CommitConfirm {
  import opened Basics

  /** Windows are numbered in the order they enter the store. */
  datatype Window<Config> = Window(id: nat, snapshot: Config)

  datatype Phase =
    | Unspawned   // the store is written, the timer task not yet spawned
    | Waiting     // in `select!` on the sleep and the cancel channel
    | Expired     // the sleep branch was taken; the store has not been emptied yet
    | Done

  /** `rolledBack` lists what timers have applied, `fate` records how each window left the store. */
  datatype Fate = Accepted | TakenBy(timer: nat)

  datatype State<Config> = State(
    store: Option<Window<Config>>,
    checked: nat,                   // armers that have seen the store empty and are about to write
    timers: seq<Phase>,             // one per window ever armed
    snapshots: seq<Config>,         // likewise, what it would roll back to
    fate: map<nat, Fate>,
    rolledBack: seq<Config>
  )

  function Init<Config>(): State<Config> {
    State(None, 0, [], [], map[], [])
  }

  datatype Step<Config> =
    | ArmCheck                      // the read lock; a busy store means 409 and no change
    | ArmWrite(snapshot: Config)    // the write lock; a busy store means 409
    | SpawnTimer(id: nat)
    | Accept
    | Expire(id: nat)               // the sleep elapses; `select!` may pick it even if cancelled too
    | SeeCancel(id: nat)            // the cancel channel fired or its sender was dropped
    | Take(id: nat)                 // the expired timer empties the store, whatever is in it

  /** Leaving the store sends on, or drops, the window's cancel channel. */
  predicate Cancelled<Config>(s: State<Config>, id: nat) {
    id in s.fate
  }

  predicate Enabled<Config>(s: State<Config>, step: Step<Config>) {
    match step
    case ArmCheck => true
    case ArmWrite(_) => s.checked > 0
    case SpawnTimer(id) => id < |s.timers| && s.timers[id] == Unspawned
    case Accept => true
    case Expire(id) => id < |s.timers| && s.timers[id] == Waiting
    case SeeCancel(id) => id < |s.timers| && s.timers[id] == Waiting && Cancelled(s, id)
    case Take(id) => id < |s.timers| && s.timers[id] == Expired
  }

  function Next<Config>(s: State<Config>, step: Step<Config>): State<Config>
    requires Enabled(s, step)
  {
    match step
    case ArmCheck => if s.store.Some? then s else s.(checked := s.checked + 1)
    case ArmWrite(snapshot) =>
      if s.store.Some? then s.(checked := s.checked - 1)
      else s.(checked := s.checked - 1,
              store := Some(Window(|s.timers|, snapshot)),
              timers := s.timers + [Unspawned],
              snapshots := s.snapshots + [snapshot])
    case SpawnTimer(id) => s.(timers := s.timers[id := Waiting])
    case Accept =>
      if s.store.None? then s
      else s.(store := None, fate := s.fate[s.store.value.id := Accepted])
    case Expire(id) => s.(timers := s.timers[id := Expired])
    case SeeCancel(id) => s.(timers := s.timers[id := Done])
    case Take(id) =>
      if s.store.None? then s.(timers := s.timers[id := Done])
      else s.(timers := s.timers[id := Done],
              store := None,
              fate := s.fate[s.store.value.id := TakenBy(id)],
              rolledBack := s.rolledBack + [s.store.value.snapshot])
  }

  // ---------------------------------------------------------------- invariant

  /** Every window ever armed is stored or has left the store, and not both; the stored window's own
    * timer is still to act; what was rolled back is exactly what timers took, once each.
    */
  ghost predicate Inv<Config>(s: State<Config>) {
    Core(s) && multiset(s.rolledBack) == Taken(s.fate, s.snapshots, |s.snapshots|)
  }

  ghost predicate Core<Config>(s: State<Config>) {
    && |s.snapshots| == |s.timers|
    && (s.store.Some? ==>
          && s.store.value.id < |s.timers|
          && s.store.value.id !in s.fate
          && s.snapshots[s.store.value.id] == s.store.value.snapshot
          && s.timers[s.store.value.id] != Done)
    && (forall id: nat :: id in s.fate ==> id < |s.timers|)
    && (forall id: nat :: id < |s.timers| ==> id in s.fate || s.store == Some(Window(id, s.snapshots[id])))
  }

  /** The snapshots of those windows below `n` that a timer took. */
  ghost function Taken<Config>(fate: map<nat, Fate>, snaps: seq<Config>, n: nat): multiset<Config>
    requires n <= |snaps|
  {
    if n == 0 then multiset{}
    else Taken(fate, snaps, n - 1) + (if n - 1 in fate then TakenAs(fate[n - 1], snaps[n - 1]) else multiset{})
  }

  ghost function TakenAs<Config>(f: Fate, snap: Config): multiset<Config> {
    if f.TakenBy? then multiset{snap} else multiset{}
  }

  function Count(fate: map<nat, Fate>, n: nat, accepted: bool): nat {
    if n == 0 then 0
    else Count(fate, n - 1, accepted) + (if n - 1 in fate && fate[n - 1].Accepted? == accepted then 1 else 0)
  }

  lemma {:induction false} TakenLonger<Config>(fate: map<nat, Fate>, snaps: seq<Config>, more: seq<Config>, n: nat)
    requires n <= |snaps| && snaps <= more
    ensures Taken(fate, snaps, n) == Taken(fate, more, n)
  {
    if n > 0 {
      TakenLonger(fate, snaps, more, n - 1);
    }
  }

  /** One window more with a fate changes the tally at that window only. */
  lemma {:induction false} TakenOne<Config>(fate: map<nat, Fate>, snaps: seq<Config>, n: nat, id: nat, f: Fate)
    requires n <= |snaps| && id !in fate && id < |snaps|
    ensures Taken(fate[id := f], snaps, n)
         == Taken(fate, snaps, n) + (if id < n then TakenAs(f, snaps[id]) else multiset{})
  {
    hide TakenAs;
    if n > 0 {
      TakenOne(fate, snaps, n - 1, id, f);
    }
  }

  lemma StepKeepsCore<Config>(s: State<Config>, step: Step<Config>)
    requires Core(s) && Enabled(s, step)
    ensures Core(Next(s, step))
  {
    var t := Next(s, step);
    forall id: nat | id < |t.timers| ensures id in t.fate || t.store == Some(Window(id, t.snapshots[id])) {
      if id < |s.timers| {
        assert id in s.fate || s.store == Some(Window(id, s.snapshots[id]));
      }
    }
  }

  lemma StepKeepsInv<Config>(s: State<Config>, step: Step<Config>)
    requires Inv(s) && Enabled(s, step)
    ensures Inv(Next(s, step))
  {
    StepKeepsCore(s, step);
    if (step.Accept? || step.Take?) && s.store.Some? {
      LeaveStep(s, step);
    } else {
      StayStep(s, step);
    }
  }

  lemma LeaveStep<Config>(s: State<Config>, step: Step<Config>)
    requires Inv(s) && Enabled(s, step) && (step.Accept? || step.Take?) && s.store.Some?
    ensures Core(Next(s, step)) ==> Inv(Next(s, step))
  {
    var id := s.store.value.id;
    TakenOne(s.fate, s.snapshots, |s.snapshots|, id, Next(s, step).fate[id]);
  }

  lemma StayStep<Config>(s: State<Config>, step: Step<Config>)
    requires Inv(s) && Enabled(s, step) && !((step.Accept? || step.Take?) && s.store.Some?)
    ensures Core(Next(s, step)) ==> Inv(Next(s, step))
  {
    TakenLonger(s.fate, s.snapshots, Next(s, step).snapshots, |s.snapshots|);
  }

  /** Nothing recorded is ever revised. */
  ghost predicate Extends<Config>(s: State<Config>, t: State<Config>) {
    && s.snapshots <= t.snapshots
    && s.rolledBack <= t.rolledBack
    && forall id: nat :: id in s.fate ==> id in t.fate && t.fate[id] == s.fate[id]
  }

  lemma StepExtends<Config>(s: State<Config>, step: Step<Config>)
    requires Core(s) && Enabled(s, step)
    ensures Extends(s, Next(s, step))
  {}

  // ---------------------------------------------------------------- what every run keeps

  ghost predicate Run<Config>(s: State<Config>, steps: seq<Step<Config>>, end: State<Config>)
    decreases |steps|
  {
    if steps == [] then s == end
    else Enabled(s, steps[0]) && Run(Next(s, steps[0]), steps[1..], end)
  }

  lemma {:induction false} RunKeepsInv<Config>(s: State<Config>, steps: seq<Step<Config>>, end: State<Config>)
    requires Inv(s) && Run(s, steps, end)
    ensures Inv(end)
    ensures Extends(s, end)
    decreases |steps|
  {
    hide Enabled, Next, Core, Taken;
    if steps != [] {
      StepKeepsInv(s, steps[0]);
      StepExtends(s, steps[0]);
      RunKeepsInv(Next(s, steps[0]), steps[1..], end);
    }
  }

  lemma {:induction false} CountAll<Config>(s: State<Config>, n: nat)
    requires Inv(s) && n <= |s.timers|
    ensures Count(s.fate, n, true) + Count(s.fate, n, false)
         == n - (if s.store.Some? && s.store.value.id < n then 1 else 0)
  {
    if n > 0 {
      CountAll(s, n - 1);
    }
  }

  /** Windows armed = accepted + taken by a timer + currently stored, in every interleaving; and a
    * stored window still has its own uncancelled timer ahead of it.
    */
  lemma {:induction false} WindowsConserved<Config>(steps: seq<Step<Config>>, end: State<Config>)
    requires Run(Init(), steps, end)
    ensures |end.timers| == Count(end.fate, |end.timers|, true) + Count(end.fate, |end.timers|, false) + (if end.store.Some? then 1 else 0)
    ensures end.store.Some? ==>
      var id := end.store.value.id;
      id < |end.timers| && end.timers[id] != Done && !Cancelled(end, id)
  {
    RunKeepsInv(Init(), steps, end);
    CountAll(end, |end.timers|);
  }

  /** An armed window is never overwritten: from one state to the next it stays or the store empties. */
  lemma NeverOverwritten<Config>(s: State<Config>, step: Step<Config>)
    requires Enabled(s, step) && s.store.Some?
    ensures Next(s, step).store in {None, s.store}
  {}

  /** While a window is stored, arming is refused at both locks: nothing is stored, spawned or let through. */
  lemma BusyIsRefused<Config>(s: State<Config>, snapshot: Config)
    requires s.store.Some?
    ensures Next(s, ArmCheck) == s
    ensures Enabled(s, ArmWrite(snapshot)) ==> Next(s, ArmWrite(snapshot)) == s.(checked := s.checked - 1)
  {}

  /** Once accepted, a window is never taken by any timer, however the run goes on. The configurations
    * applied by timers are, as a multiset, the snapshots of the windows that timers took.
    */
  lemma {:induction false} AcceptedIsFinal<Config>(before: seq<Step<Config>>, mid: State<Config>, after: seq<Step<Config>>, end: State<Config>, id: nat)
    requires Run(Init(), before, mid) && Run(mid, after, end)
    requires id in mid.fate && mid.fate[id].Accepted?
    ensures id in end.fate && end.fate[id].Accepted?
    ensures multiset(end.rolledBack) == Taken(end.fate, end.snapshots, |end.snapshots|)
  {
    RunKeepsInv(Init(), before, mid);
    RunKeepsInv(mid, after, end);
  }

  /** When nothing is left to run, nothing is left armed: every window was accepted or rolled back. */
  lemma {:induction false} NoWindowForgotten<Config>(steps: seq<Step<Config>>, end: State<Config>)
    requires Run(Init(), steps, end)
    requires forall id: nat :: id < |end.timers| ==> end.timers[id] == Done
    ensures end.store.None? && forall id: nat :: id < |end.timers| ==> id in end.fate
  {
    RunKeepsInv(Init(), steps, end);
  }

  // ---------------------------------------------------------------- stale timers

  /** "Each timer rolls back its own snapshot" holds exactly when the timer's own window has not left
    * the store yet; otherwise the timer is stale and takes whatever is there.
    */
  lemma {:induction false} TakesOwnWindowExactly<Config>(steps: seq<Step<Config>>, s: State<Config>, id: nat)
    requires Run(Init(), steps, s) && Enabled(s, Take(id)) && s.store.Some?
    ensures s.store.value.id == id <==> !Cancelled(s, id)
  {
    RunKeepsInv(Init(), steps, s);
  }

  /** A stale timer can end a later window before that window's own time is up: arm, let the first
    * timer expire, accept, arm again, and the first timer takes the second window.
    */
  lemma StaleTimerTakesLaterWindow<Config>(a: Config, b: Config)
    ensures exists steps: seq<Step<Config>>, end: State<Config> ::
      && Run(Init(), steps, end)
      && end.fate == map[0 := Accepted, 1 := TakenBy(0)]
      && end.timers == [Done, Waiting] && end.rolledBack == [b]
  {
    hide Run;
    var s0: State<Config> := Init();
    RunNothing(s0);
    var r1, s1 := Extend(s0, [], s0, ArmCheck);
    var r2, s2 := Extend(s0, r1, s1, ArmWrite(a));
    var r3, s3 := Extend(s0, r2, s2, SpawnTimer(0));
    var r4, s4 := Extend(s0, r3, s3, Expire(0));
    var r5, s5 := Extend(s0, r4, s4, Accept);
    var r6, s6 := Extend(s0, r5, s5, ArmCheck);
    var r7, s7 := Extend(s0, r6, s6, ArmWrite(b));
    var r8, s8 := Extend(s0, r7, s7, SpawnTimer(1));
    var r9, s9 := Extend(s0, r8, s8, Take(0));
  }

  lemma RunNothing<Config>(s: State<Config>)
    ensures Run(s, [], s)
  {}

  lemma Extend<Config>(s: State<Config>, steps: seq<Step<Config>>, mid: State<Config>, step: Step<Config>)
    returns (longer: seq<Step<Config>>, end: State<Config>)
    requires Run(s, steps, mid) && Enabled(mid, step)
    ensures end == Next(mid, step) && Run(s, longer, end)
  {
    longer, end := steps + [step], Next(mid, step);
    RunSnoc(s, steps, mid, step);
  }

  lemma {:induction false} RunSnoc<Config>(s: State<Config>, steps: seq<Step<Config>>, mid: State<Config>, step: Step<Config>)
    requires Run(s, steps, mid) && Enabled(mid, step)
    ensures Run(s, steps + [step], Next(mid, step))
    decreases |steps|
  {
    var longer := steps + [step];
    if steps == [] {
      assert longer[1..] == [];
    } else {
      assert longer[1..] == steps[1..] + [step];
      RunSnoc(Next(s, steps[0]), steps[1..], mid, step);
    }
  }
}
