/** The DNS backend switch with probe and rollback (aifw-api/src/dns_resolver.rs:94-117, 1598-1908). */
module DnsSwitch {
  import opened Basics

  /** A backend name as it appears in a request or a stored key: one of the two that `backend_service`
    * knows, or any other text, such as "none".
    */
  datatype Backend = Rdns | Unbound | Unknown(name: string)

  predicate Known(b: Backend) {
    !b.Unknown?
  }

  const NONE: Backend := Unknown("none")

  function Other(b: Backend): Backend {
    if b == Rdns then Unbound else Rdns
  }

  /** The value of an rc.conf enable flag; a missing flag has none. */
  datatype Flag = Yes | No | OtherText(text: string)

  type Flags = map<Backend, Flag>

  /** Why a start did not lead to an answer: the service came up, or its restart failed with this output. */
  datatype Why = NoResponse | NoOutput | Output(text: string)

  /** What `last_switch_result` says. */
  datatype SwitchResult =
    | NotYet
    | OkDisabled
    | ConfigError
    | Fine
    | Failed(target: Backend, why: Why)
    | RolledBackFrom(target: Backend, why: Why, prev: Backend, responding: bool)

  /** The rows of `dns_resolver_config` that matter here. */
  datatype Keys = Keys(backend: Backend, lastApplied: Option<Backend>, lastSwitchResult: SwitchResult)

  /** What the environment answers during one call: does config generation succeed; does the target restart, with
    * what output, and if not is a running instance still up; what do the probes find; the same for a restored
    * backend; which flags can be read; and which services obey a stop.
    */
  datatype World = World(
    configOk: bool,
    startOk: bool, startOutput: string, lingers: bool, probe: (bool, bool),
    prevStartOk: bool, prevLingers: bool, prevProbe: (bool, bool),
    sees: Backend -> bool, stops: Backend -> bool)

  datatype Report = Report(backend: Backend, enabled: bool, probeUdp: bool, probeTcp: bool, rolledBack: bool, previous: Option<Backend>)

  /** How far a call got. */
  datatype Outcome = DisabledAll | UnknownTarget | ConfigFailed | Applied | NothingToRestore | RolledBack

  /** One call of `switch_backend`: the request, and what the environment answers. */
  datatype Call = Call(target: Backend, enabled: bool, probeEnabled: bool, world: World)

  /** Which way a call goes. */
  function PathOf(lastApplied: Option<Backend>, c: Call): Outcome {
    if !c.enabled then DisabledAll
    else if !Known(c.target) then UnknownTarget
    else if !c.world.configOk then ConfigFailed
    else if (if c.probeEnabled then c.world.probe.0 else c.world.startOk) then Applied
    else if Previous(lastApplied).None? then NothingToRestore
    else RolledBack
  }

  predicate Early(path: Outcome) {
    path == UnknownTarget || path == ConfigFailed
  }

  /** Only a known backend counts as previous. */
  function Previous(lastApplied: Option<Backend>): Option<Backend> {
    if lastApplied.Some? && Known(lastApplied.value) then lastApplied else None
  }

  /** The flag reads exactly YES, the only spelling this code looks for. */
  predicate On(flags: Flags, b: Backend) {
    b in flags && flags[b] == Yes
  }

  /** The flag is on and can be read. */
  predicate SeenOn(flags: Flags, w: World, b: Backend) {
    w.sees(b) && On(flags, b)
  }

  /** At most one backend is enabled, namely the recorded one. */
  ghost predicate Agree(flags: Flags, lastApplied: Option<Backend>) {
    forall b: Backend :: Known(b) && On(flags, b) ==> lastApplied == Some(b)
  }

  // ---------------------------------------------------------------- the state after a call

  /** A flag that is seen to be on is switched off; any other is left as it is. */
  function TurnOff(flags: Flags, w: World, b: Backend): Flags {
    if SeenOn(flags, w, b) then flags[b := No] else flags
  }

  function Stopped(running: set<Backend>, w: World, b: Backend): set<Backend> {
    if w.stops(b) then running - {b} else running
  }

  function Restarted(running: set<Backend>, b: Backend, ok: bool, lingers: bool): set<Backend> {
    if ok then running + {b} else if lingers then running else running - {b}
  }

  /** Stopping a backend whose flag is seen to be on. */
  function StoppedIfOn(flags: Flags, running: set<Backend>, w: World, b: Backend): set<Backend> {
    if SeenOn(flags, w, b) then Stopped(running, w, b) else running
  }

  function FinalFlags(flags: Flags, lastApplied: Option<Backend>, c: Call): Flags {
    var w, target := c.world, c.target;
    var quiet := TurnOff(flags, w, Other(target));
    match PathOf(lastApplied, c)
    case DisabledAll => TurnOff(TurnOff(flags, w, Rdns), w, Unbound)
    case Applied => quiet[target := Yes]
    case NothingToRestore => quiet[target := No]
    case RolledBack => quiet[target := No][Previous(lastApplied).value := Yes]
    case _ => flags
  }

  /** The services that are up. */
  function FinalRunning(flags: Flags, running: set<Backend>, lastApplied: Option<Backend>, c: Call): set<Backend> {
    var w, target := c.world, c.target;
    var tried := Restarted(StoppedIfOn(flags, running, w, Other(target)), target, w.startOk, w.lingers);
    match PathOf(lastApplied, c)
    case DisabledAll => StoppedIfOn(flags, StoppedIfOn(flags, running, w, Rdns), w, Unbound)
    case Applied => tried
    case NothingToRestore => Stopped(tried, w, target)
    case RolledBack => Restarted(Stopped(tried, w, target), Previous(lastApplied).value, w.prevStartOk, w.prevLingers)
    case _ => running
  }

  function WhyOf(w: World): Why {
    if w.startOk then NoResponse else if w.startOutput == "" then NoOutput else Output(w.startOutput)
  }

  function FinalKeys(keys: Keys, c: Call): Keys {
    var w := c.world;
    match PathOf(keys.lastApplied, c)
    case DisabledAll => keys.(lastApplied := Some(NONE), lastSwitchResult := OkDisabled)
    case UnknownTarget => keys
    case ConfigFailed => keys.(lastSwitchResult := ConfigError)
    case Applied => keys.(lastApplied := Some(c.target), lastSwitchResult := Fine)
    case NothingToRestore => keys.(lastApplied := Some(NONE), lastSwitchResult := Failed(c.target, WhyOf(w)))
    case RolledBack =>
      var prev := Previous(keys.lastApplied).value;
      Keys(prev, Some(prev), RolledBackFrom(c.target, WhyOf(w), prev, w.prevProbe.0))
  }

  // ---------------------------------------------------------------- the code

  class Resolver {
    var flags: Flags   // the rc.conf enable flag per backend; a missing key is an unset flag
    var running: set<Backend>
    var keys: Keys
    var pendingDns: bool

    constructor (flags: Flags, running: set<Backend>, keys: Keys, pendingDns: bool)
      ensures this.flags == flags && this.running == running && this.keys == keys && this.pendingDns == pendingDns
    {
      this.flags, this.running, this.keys, this.pendingDns := flags, running, keys, pendingDns;
    }

    /** `sysrc_set_if_different`: whether or not the flag can be read first, it has the value afterwards, and no
      * other flag moves.
      */
    method SetFlag(b: Backend, value: Flag, w: World)
      modifies this`flags
      ensures flags == old(flags)[b := value]
    {
      if !(w.sees(b) && b in flags && flags[b] == value) {
        flags := flags[b := value];
      }
    }

    /** The flag goes off even if the service does not obey. */
    method StopBackend(b: Backend, w: World)
      modifies this`flags, this`running
      ensures if Known(b) then flags == old(flags)[b := No] && running == Stopped(old(running), w, b)
              else flags == old(flags) && running == old(running)
    {
      if Known(b) {
        if w.stops(b) {
          running := running - {b};
        }
        SetFlag(b, No, w);
      }
    }

    /** The flag goes on before the restart, and stays on if that fails. */
    method StartBackend(b: Backend, starts: bool, lingers: bool, w: World) returns (ok: bool)
      modifies this`flags, this`running
      ensures ok == (Known(b) && starts)
      ensures flags == if Known(b) then old(flags)[b := Yes] else old(flags)
      ensures running == if Known(b) then Restarted(old(running), b, starts, lingers) else old(running)
    {
      ok := Known(b) && starts;
      if Known(b) {
        SetFlag(b, Yes, w);
        if starts {
          running := running + {b};
        } else if !lingers {
          running := running - {b};
        }
      }
    }

    method StopIfOn(b: Backend, w: World)
      requires Known(b)
      modifies this`flags, this`running
      ensures flags == TurnOff(old(flags), w, b) && running == StoppedIfOn(old(flags), old(running), w, b)
    {
      if SeenOn(flags, w, b) {
        StopBackend(b, w);
      }
    }

    /** `switch_backend`, return path by return path: the whole new state, and what is reported. */
    method SwitchBackend(c: Call) returns (r: Report, ghost path: Outcome)
      modifies this
      ensures path == PathOf(old(keys.lastApplied), c)
      ensures flags == FinalFlags(old(flags), old(keys.lastApplied), c)
      ensures running == FinalRunning(old(flags), old(running), old(keys.lastApplied), c)
      ensures keys == FinalKeys(old(keys), c)
      ensures pendingDns == (Early(path) && old(pendingDns))
      // Past config generation the flags agree with the record exactly when no flag that is on went unseen;
      // earlier returns keep what agreement there was.
      ensures if Early(path) then flags == old(flags) && Agree(flags, keys.lastApplied) == old(Agree(flags, keys.lastApplied))
              else Agree(flags, keys.lastApplied) <==> !Unseen(old(flags), old(keys.lastApplied), c)
      // A reported rollback has desired, recorded and enabled backend equal to the previous one.
      ensures r.rolledBack <==> path == RolledBack
      ensures path == RolledBack ==>
        && Some(r.backend) == r.previous == keys.lastApplied && keys.backend == r.backend && On(flags, r.backend)
        && (r.probeUdp, r.probeTcp) == c.world.prevProbe
      ensures path == Applied ==> r.backend == c.target && r.probeUdp && On(flags, c.target)
      ensures path == NothingToRestore ==> r.backend == Unknown("none")
      ensures path in {DisabledAll, NothingToRestore} ==> keys.lastApplied == Some(Unknown("none"))
      // The services: a start that worked is up, a stop that worked is down.
      ensures path == Applied && c.world.startOk ==> c.target in running
      ensures path == RolledBack && c.world.prevStartOk ==> r.backend in running
      ensures path == RolledBack && c.world.stops(c.target) && r.backend != c.target ==> c.target !in running
      ensures path == NothingToRestore && c.world.stops(c.target) ==> c.target !in running
      ensures path == Applied && old(SeenOn(flags, c.world, Other(c.target))) && c.world.stops(Other(c.target)) ==> Other(c.target) !in running
      ensures path == Applied && !c.world.startOk && !c.world.lingers ==> c.target !in running
      // The recorded reason.
      ensures path in {NothingToRestore, RolledBack} ==>
        var why := if c.world.startOk then NoResponse else if c.world.startOutput == "" then NoOutput else Output(c.world.startOutput);
        keys.lastSwitchResult == if path == NothingToRestore then Failed(c.target, why)
                                 else RolledBackFrom(c.target, why, r.backend, c.world.prevProbe.0)
      ensures Early(path) ==> r.backend == if r.previous.Some? then r.previous.value else NONE
      ensures path !in {Applied, RolledBack} ==> !r.probeUdp
      ensures r.enabled == c.enabled && r.previous == Previous(old(keys.lastApplied))
    {
      AgreeExactly(flags, keys.lastApplied, c);
      var previous := Previous(keys.lastApplied);
      path := PathOf(keys.lastApplied, c);

      if !c.enabled {
        DisableAll(c.world);
        return Report(c.target, false, false, false, false, previous), path;
      }

      var current := if previous.Some? then previous.value else NONE;
      if !Known(c.target) {
        return Report(current, true, false, false, false, previous), path;
      }

      if !c.world.configOk {
        keys := keys.(lastSwitchResult := ConfigError);
        return Report(current, true, false, false, false, previous), path;
      }

      RunningAfter(flags, running, keys.lastApplied, c);
      KeysAfter(keys, c);
      assert NONE == Unknown("none");
      hide *;
      r := SwitchOver(c, path);
    }

    /** The disabled path: tear down whatever is seen to be enabled, no probe. */
    method DisableAll(w: World)
      modifies this
      ensures flags == TurnOff(TurnOff(old(flags), w, Rdns), w, Unbound)
      ensures running == StoppedIfOn(old(flags), StoppedIfOn(old(flags), old(running), w, Rdns), w, Unbound)
      ensures keys == old(keys).(lastApplied := Some(NONE), lastSwitchResult := OkDisabled) && !pendingDns
    {
      StopIfOn(Rdns, w);
      StopIfOn(Unbound, w);
      keys := keys.(lastApplied := Some(NONE), lastSwitchResult := OkDisabled);
      pendingDns := false;
    }

    /** The target stays stopped. */
    method GiveUp(target: Backend, w: World)
      requires Known(target)
      modifies this
      ensures flags == old(flags)[target := No] && running == Stopped(old(running), w, target) && !pendingDns
      ensures keys == old(keys).(lastApplied := Some(NONE), lastSwitchResult := Failed(target, WhyOf(w)))
    {
      StopBackend(target, w);
      keys := keys.(lastApplied := Some(NONE), lastSwitchResult := Failed(target, WhyOf(w)));
      pendingDns := false;
    }

    /** Stop the target, start the previous backend, and flip the desired one too. */
    method RollBack(target: Backend, prev: Backend, w: World)
      requires Known(target) && Known(prev)
      modifies this
      ensures flags == old(flags)[target := No][prev := Yes] && !pendingDns
      ensures running == Restarted(Stopped(old(running), w, target), prev, w.prevStartOk, w.prevLingers)
      ensures keys == Keys(prev, Some(prev), RolledBackFrom(target, WhyOf(w), prev, w.prevProbe.0))
    {
      StopBackend(target, w);
      var _ := StartBackend(prev, w.prevStartOk, w.prevLingers, w);
      keys := keys.(backend := prev, lastApplied := Some(prev),
                    lastSwitchResult := RolledBackFrom(target, WhyOf(w), prev, w.prevProbe.0));
      pendingDns := false;
    }

    /** Past config generation: stop the other backend, start the target, probe, and on failure restore the
      * previous one.
      */
    method SwitchOver(c: Call, ghost path: Outcome) returns (r: Report)
      requires path == PathOf(keys.lastApplied, c) && path in {Applied, NothingToRestore, RolledBack}
      modifies this
      ensures flags == FinalFlags(old(flags), old(keys.lastApplied), c)
      ensures running == FinalRunning(old(flags), old(running), old(keys.lastApplied), c)
      ensures keys == FinalKeys(old(keys), c) && !pendingDns
      ensures r.rolledBack <==> path == RolledBack
      ensures path == RolledBack ==>
        Some(r.backend) == r.previous == keys.lastApplied && keys.backend == r.backend && (r.probeUdp, r.probeTcp) == c.world.prevProbe
      ensures path == Applied ==> r.backend == c.target && r.probeUdp
      ensures path == NothingToRestore ==> r.backend == NONE && !r.probeUdp
      ensures r.enabled && r.previous == Previous(old(keys.lastApplied))
    {
      hide TurnOff, StoppedIfOn, Restarted, Stopped, SeenOn, Other, WhyOf;
      KnownOther(c.target);
      var w := c.world;
      var previous := Previous(keys.lastApplied);
      StopIfOn(Other(c.target), w);
      var started := StartBackend(c.target, w.startOk, w.lingers, w);
      var probed := if c.probeEnabled then w.probe else (started, false);

      if probed.0 {
        keys := keys.(lastApplied := Some(c.target), lastSwitchResult := Fine);
        pendingDns := false;
        return Report(c.target, true, true, probed.1, false, previous);
      }
      if previous.None? {
        GiveUp(c.target, w);
        return Report(NONE, true, false, probed.1, false, None);
      }
      RollBack(c.target, previous.value, w);
      return Report(previous.value, true, w.prevProbe.0, w.prevProbe.1, true, previous);
    }
  }

  /** What the services are after a call that got past config generation. */
  lemma RunningAfter(flags: Flags, running: set<Backend>, lastApplied: Option<Backend>, c: Call)
    ensures var up, path := FinalRunning(flags, running, lastApplied, c), PathOf(lastApplied, c);
      && (path == Applied && c.world.startOk ==> c.target in up)
      && (path == Applied && !c.world.startOk && !c.world.lingers ==> c.target !in up)
      && (path == Applied && SeenOn(flags, c.world, Other(c.target)) && c.world.stops(Other(c.target)) ==> Other(c.target) !in up)
      && (path == RolledBack && c.world.prevStartOk ==> Previous(lastApplied).value in up)
      && (path == RolledBack && c.world.stops(c.target) && Previous(lastApplied).value != c.target ==> c.target !in up)
      && (path == NothingToRestore && c.world.stops(c.target) ==> c.target !in up)
  {}

  lemma KeysAfter(keys: Keys, c: Call)
    ensures var path, after := PathOf(keys.lastApplied, c), FinalKeys(keys, c);
      var why := if c.world.startOk then NoResponse else if c.world.startOutput == "" then NoOutput else Output(c.world.startOutput);
      && (path in {DisabledAll, NothingToRestore} ==> after.lastApplied == Some(Unknown("none")))
      && (path == NothingToRestore ==> after.lastSwitchResult == Failed(c.target, why))
      && (path == RolledBack ==> after.lastSwitchResult == RolledBackFrom(c.target, why, after.backend, c.world.prevProbe.0))
  {}

  lemma KnownOther(b: Backend)
    ensures Known(Other(b))
  {}

  // ---------------------------------------------------------------- agreement of flags and record

  /** A flag that is on is not seen where the call looks for it, and the call does not set it on purpose. */
  predicate Unseen(flags: Flags, lastApplied: Option<Backend>, c: Call) {
    var o := Other(c.target);
    match PathOf(lastApplied, c)
    case DisabledAll => (On(flags, Rdns) && !c.world.sees(Rdns)) || (On(flags, Unbound) && !c.world.sees(Unbound))
    case RolledBack => On(flags, o) && !c.world.sees(o) && Previous(lastApplied) != Some(o)
    case _ => On(flags, o) && !c.world.sees(o)
  }

  /** From any drift of the flags and any recorded backend, a call that gets past config generation, or a disable,
    * ends with at most one backend enabled, the recorded one, if and only if no flag that is on went unseen.
    */
  lemma AgreeExactly(flags: Flags, lastApplied: Option<Backend>, c: Call)
    ensures var after, path := FinalFlags(flags, lastApplied, c), PathOf(lastApplied, c);
      var recorded := FinalKeys(Keys(NONE, lastApplied, NotYet), c).lastApplied;
      && (!Early(path) ==> (Agree(after, recorded) <==> !Unseen(flags, lastApplied, c)))
      && (Early(path) ==> after == flags && recorded == lastApplied)
      && (path == Applied ==> On(after, c.target))
      && (path == RolledBack ==> On(after, Previous(lastApplied).value))
  {
    var after, path := FinalFlags(flags, lastApplied, c), PathOf(lastApplied, c);
    var recorded := FinalKeys(Keys(NONE, lastApplied, NotYet), c).lastApplied;
    forall b: Backend | Known(b) ensures b == Rdns || b == Unbound {}
    if !Early(path) && Unseen(flags, lastApplied, c) {
      var b := if path == DisabledAll then (if On(flags, Rdns) && !c.world.sees(Rdns) then Rdns else Unbound) else Other(c.target);
      assert Known(b) && On(after, b) && recorded != Some(b);
    }
  }

  /** A failed read is enough: both backends end up enabled. */
  lemma UnseenExample(w: World)
    requires w.configOk && w.startOk && !w.sees(Unbound)
    ensures var after := FinalFlags(map[Unbound := Yes], Some(Unbound), Call(Rdns, true, false, w)); On(after, Rdns) && On(after, Unbound)
  {}

  /** Flags and recorded backend after a run of calls. */
  function AfterCalls(flags: Flags, keys: Keys, calls: seq<Call>): (Flags, Keys)
    decreases |calls|
  {
    if calls == [] then (flags, keys)
    else AfterCalls(FinalFlags(flags, keys.lastApplied, calls[0]), FinalKeys(keys, calls[0]), calls[1..])
  }

  /** Whether the flags agree in the end: decided by the last call that was not cut short. */
  ghost predicate EndsAgreed(flags: Flags, keys: Keys, calls: seq<Call>, agreed: bool)
    decreases |calls|
  {
    if calls == [] then agreed
    else
      var path := PathOf(keys.lastApplied, calls[0]);
      EndsAgreed(FinalFlags(flags, keys.lastApplied, calls[0]), FinalKeys(keys, calls[0]), calls[1..],
                 if Early(path) then agreed else !Unseen(flags, keys.lastApplied, calls[0]))
  }

  /** Over every run of calls: early returns keep what agreement there was, and every other call decides it anew. */
  lemma {:induction false} RunsAgreeExactly(flags: Flags, keys: Keys, calls: seq<Call>)
    ensures Agree(AfterCalls(flags, keys, calls).0, AfterCalls(flags, keys, calls).1.lastApplied)
       <==> EndsAgreed(flags, keys, calls, Agree(flags, keys.lastApplied))
    decreases |calls|
  {
    hide FinalFlags, FinalKeys, Agree, Unseen;
    if calls != [] {
      AgreeExactly(flags, keys.lastApplied, calls[0]);
      RecordedBy(keys, calls[0]);
      RunsAgreeExactly(FinalFlags(flags, keys.lastApplied, calls[0]), FinalKeys(keys, calls[0]), calls[1..]);
    }
  }

  /** The call returns before it touches a flag. */
  predicate CutShort(c: Call) {
    c.enabled && (!Known(c.target) || !c.world.configOk)
  }

  /** With flags that can be read, every run keeps agreement, and a single call that is not cut short establishes it
    * from any drift.
    */
  lemma {:induction false} RunsAgree(flags: Flags, keys: Keys, calls: seq<Call>, mended: nat)
    requires forall i :: 0 <= i < |calls| ==> forall b :: calls[i].world.sees(b)
    requires Agree(flags, keys.lastApplied) || (mended < |calls| && !CutShort(calls[mended]))
    ensures Agree(AfterCalls(flags, keys, calls).0, AfterCalls(flags, keys, calls).1.lastApplied)
    decreases |calls|
  {
    hide FinalFlags, FinalKeys, Agree;
    if calls != [] {
      AgreeExactly(flags, keys.lastApplied, calls[0]);
      RecordedBy(keys, calls[0]);
      assert calls[0].world.sees(Rdns) && calls[0].world.sees(Unbound);
      RunsAgree(FinalFlags(flags, keys.lastApplied, calls[0]), FinalKeys(keys, calls[0]), calls[1..],
                if mended > 0 then mended - 1 else 0);
    }
  }

  lemma RecordedBy(keys: Keys, c: Call)
    ensures FinalKeys(keys, c).lastApplied == FinalKeys(Keys(NONE, keys.lastApplied, NotYet), c).lastApplied
  {}

  // ---------------------------------------------------------------- services

  /** A service that is up has its flag on. */
  ghost predicate UpMeansOn(flags: Flags, running: set<Backend>) {
    forall b :: b in running && Known(b) ==> On(flags, b)
  }

  /** The call stops a service that is up and does not obey. */
  predicate Disobeyed(flags: Flags, running: set<Backend>, lastApplied: Option<Backend>, c: Call) {
    var w, o := c.world, Other(c.target);
    var tried := Restarted(StoppedIfOn(flags, running, w, o), c.target, w.startOk, w.lingers);
    match PathOf(lastApplied, c)
    case DisabledAll => StaysUp(flags, running, w, Rdns) || StaysUp(flags, running, w, Unbound)
    case Applied => StaysUp(flags, running, w, o)
    case NothingToRestore => StaysUp(flags, running, w, o) || (c.target in tried && !w.stops(c.target))
    case RolledBack =>
      var prev := Previous(lastApplied).value;
      || (StaysUp(flags, running, w, o) && prev != o)
      || (c.target in tried && !w.stops(c.target) && prev != c.target)
    case _ => false
  }

  predicate StaysUp(flags: Flags, running: set<Backend>, w: World, b: Backend) {
    SeenOn(flags, w, b) && b in running && !w.stops(b)
  }

  /** If every service that is up had its flag on, the same holds after a call exactly when no service that it stops
    * for good disobeys.
    */
  lemma ServicesFollowFlagsExactly(flags: Flags, running: set<Backend>, lastApplied: Option<Backend>, c: Call)
    requires UpMeansOn(flags, running)
    ensures UpMeansOn(FinalFlags(flags, lastApplied, c), FinalRunning(flags, running, lastApplied, c))
       <==> !Disobeyed(flags, running, lastApplied, c)
  {
    var after, up := FinalFlags(flags, lastApplied, c), FinalRunning(flags, running, lastApplied, c);
    BothUp(flags, running);
    BothUp(after, up);
    if PathOf(lastApplied, c) == RolledBack {
      hide On, UpMeansOn;
      ServicesRolledBack(flags, running, lastApplied, c);
    } else {
      hide UpMeansOn;
    }
  }

  lemma BothUp(flags: Flags, running: set<Backend>)
    ensures UpMeansOn(flags, running) <==> (Rdns in running ==> On(flags, Rdns)) && (Unbound in running ==> On(flags, Unbound))
  {
    forall b: Backend | Known(b) ensures b == Rdns || b == Unbound {}
  }

  /** The rollback path, backend by backend. */
  lemma ServicesRolledBack(flags: Flags, running: set<Backend>, lastApplied: Option<Backend>, c: Call)
    requires PathOf(lastApplied, c) == RolledBack
    requires (Rdns in running ==> On(flags, Rdns)) && (Unbound in running ==> On(flags, Unbound))
    ensures var after, up := FinalFlags(flags, lastApplied, c), FinalRunning(flags, running, lastApplied, c);
      (Rdns in up ==> On(after, Rdns)) && (Unbound in up ==> On(after, Unbound)) <==> !Disobeyed(flags, running, lastApplied, c)
  {
    var prev := Previous(lastApplied).value;
    if c.target == Rdns {
      if prev == Rdns {} else { assert prev == Unbound; }
    } else {
      assert c.target == Unbound;
      if prev == Rdns {} else { assert prev == Unbound; }
    }
  }

  // ---------------------------------------------------------------- other spellings of yes

  /** The flags a call writes whatever they say. */
  function Overwritten(lastApplied: Option<Backend>, c: Call): set<Backend> {
    match PathOf(lastApplied, c)
    case Applied => {c.target}
    case NothingToRestore => {c.target}
    case RolledBack => {c.target, Previous(lastApplied).value}
    case _ => {}
  }

  /** rc itself also accepts other spellings of yes. On every path a flag with such a spelling survives a call if and
    * only if the call does not write that flag unasked; none ever appears.
    */
  lemma OtherSpellingSurvives(flags: Flags, lastApplied: Option<Backend>, c: Call, b: Backend, text: string)
    ensures var after := FinalFlags(flags, lastApplied, c);
      b in after && after[b] == OtherText(text)
      <==> b in flags && flags[b] == OtherText(text) && b !in Overwritten(lastApplied, c)
  {}

  // ---------------------------------------------------------------- waiting for the server

  /** One probe: its answer and how long it took, in milliseconds. */
  datatype Probe = Probe(ok: bool, cost: nat)

  /** Which turns a probe has succeeded in. */
  predicate SucceededBy(probes: nat -> Probe, turns: nat) {
    exists i :: 0 <= i < turns && probes(i).ok
  }

  const PER_TRY: nat := 700
  const PAUSE: nat := 250

  /** The probes of one turn: a kind that has already succeeded is not probed again. */
  ghost function Spent(udp: nat -> Probe, tcp: nat -> Probe, i: nat): nat {
    (if SucceededBy(udp, i) then 0 else udp(i).cost) + (if SucceededBy(tcp, i) then 0 else tcp(i).cost)
  }

  /** The time at the start of turn `i`. */
  ghost function Clock(udp: nat -> Probe, tcp: nat -> Probe, pause: nat -> nat, i: nat): nat {
    if i == 0 then 0 else Clock(udp, tcp, pause, i - 1) + Spent(udp, tcp, i - 1) + pause(i - 1)
  }

  /** The wait ends in turn `i`: both kinds have answered, or UDP has and there is no time for another try. */
  ghost predicate Ends(deadline: nat, udp: nat -> Probe, tcp: nat -> Probe, pause: nat -> nat, i: nat) {
    && SucceededBy(udp, i + 1)
    && (SucceededBy(tcp, i + 1) || Clock(udp, tcp, pause, i) + Spent(udp, tcp, i) + PER_TRY >= deadline)
  }

  /** The wait runs exactly `turns` turns and takes `elapsed`: each turn starts before the deadline and no
    * earlier one ends it; the last one ends it, or the next would start too late.
    */
  ghost predicate Waited(deadline: nat, udp: nat -> Probe, tcp: nat -> Probe, pause: nat -> nat, turns: nat, elapsed: nat) {
    && (forall i :: 0 <= i < turns ==> Clock(udp, tcp, pause, i) < deadline)
    && (forall i :: 0 <= i < turns - 1 ==> !Ends(deadline, udp, tcp, pause, i))
    && if turns > 0 && Ends(deadline, udp, tcp, pause, turns - 1)
       then elapsed == Clock(udp, tcp, pause, turns - 1) + Spent(udp, tcp, turns - 1)
       else elapsed == Clock(udp, tcp, pause, turns) && elapsed >= deadline
  }

  /** `wait_for_dns_ready`: probes time out after 700 ms, pauses last at least 250 ms and at most `nap`.
    * It ends within `deadline / 250 + 1` turns and one turn past the deadline, reports exactly whether some
    * probe answered, and gives up on UDP only after the deadline.
    */
  method WaitForDnsReady(deadline: nat, udp: nat -> Probe, tcp: nat -> Probe, pause: nat -> nat, nap: nat)
    returns (udpOk: bool, tcpOk: bool, elapsed: nat, turns: nat)
    requires forall i: nat :: udp(i).cost <= 700 && tcp(i).cost <= 700
    requires forall i: nat :: 250 <= pause(i) <= nap
    ensures Waited(deadline, udp, tcp, pause, turns, elapsed)
    ensures udpOk == SucceededBy(udp, turns) && tcpOk == SucceededBy(tcp, turns)
    ensures !udpOk ==> elapsed >= deadline
    ensures !tcpOk ==> elapsed + 700 >= deadline
    ensures elapsed < deadline + 2 * 700 + nap || elapsed == 0
    ensures turns * 250 <= elapsed + 250 && turns <= deadline / 250 + 1
  {
    hide SucceededBy, Spent, Clock, Ends, Waited;
    var clock: nat := 0;
    var i: nat := 0;
    ClockStarts(udp, tcp, pause);
    udpOk, tcpOk := false, false;
    NothingYet(udp);
    NothingYet(tcp);
    while clock < deadline
      invariant clock == Clock(udp, tcp, pause, i)
      invariant udpOk == SucceededBy(udp, i) && tcpOk == SucceededBy(tcp, i)
      invariant forall j :: 0 <= j < i ==> Clock(udp, tcp, pause, j) < deadline && !Ends(deadline, udp, tcp, pause, j)
      invariant i * PAUSE <= clock
      invariant clock < deadline + 2 * PER_TRY + nap || clock == 0
      invariant i == 0 || (i - 1) * PAUSE < deadline
      decreases deadline - clock
    {
      ghost var start := clock;
      udpOk, tcpOk, clock := ProbeTurn(udp, tcp, i, udpOk, tcpOk, clock);
      EndsWhen(deadline, udp, tcp, pause, i);
      if udpOk && tcpOk {
        WaitedUntil(deadline, udp, tcp, pause, i + 1, clock);
        return udpOk, tcpOk, clock, i + 1;
      }
      if udpOk && clock + PER_TRY >= deadline {
        WaitedUntil(deadline, udp, tcp, pause, i + 1, clock);
        return udpOk, tcpOk, clock, i + 1;
      }
      ClockTicks(udp, tcp, pause, i);
      clock := clock + pause(i);
      i := i + 1;
    }
    WaitedUntil(deadline, udp, tcp, pause, i, clock);
    elapsed, turns := clock, i;
  }

  method ProbeTurn(udp: nat -> Probe, tcp: nat -> Probe, i: nat, udpOk0: bool, tcpOk0: bool, clock0: nat)
    returns (udpOk: bool, tcpOk: bool, clock: nat)
    requires udp(i).cost <= PER_TRY && tcp(i).cost <= PER_TRY
    requires udpOk0 == SucceededBy(udp, i) && tcpOk0 == SucceededBy(tcp, i)
    ensures udpOk == SucceededBy(udp, i + 1) && tcpOk == SucceededBy(tcp, i + 1)
    ensures clock == clock0 + Spent(udp, tcp, i) <= clock0 + 2 * PER_TRY
  {
    hide SucceededBy;
    OneMoreTurn(udp, i);
    OneMoreTurn(tcp, i);
    udpOk, tcpOk, clock := udpOk0, tcpOk0, clock0;
    if !udpOk {
      udpOk := udp(i).ok;
      clock := clock + udp(i).cost;
    }
    if !tcpOk {
      tcpOk := tcp(i).ok;
      clock := clock + tcp(i).cost;
    }
  }

  lemma ClockStarts(udp: nat -> Probe, tcp: nat -> Probe, pause: nat -> nat)
    ensures Clock(udp, tcp, pause, 0) == 0
  {}

  lemma ClockTicks(udp: nat -> Probe, tcp: nat -> Probe, pause: nat -> nat, i: nat)
    ensures Clock(udp, tcp, pause, i + 1) == Clock(udp, tcp, pause, i) + Spent(udp, tcp, i) + pause(i)
  {}

  lemma EndsWhen(deadline: nat, udp: nat -> Probe, tcp: nat -> Probe, pause: nat -> nat, i: nat)
    ensures var after := Clock(udp, tcp, pause, i) + Spent(udp, tcp, i);
      Ends(deadline, udp, tcp, pause, i) <==>
        SucceededBy(udp, i + 1) && (SucceededBy(tcp, i + 1) || after + PER_TRY >= deadline)
  {}

  lemma WaitedUntil(deadline: nat, udp: nat -> Probe, tcp: nat -> Probe, pause: nat -> nat, turns: nat, elapsed: nat)
    requires forall i :: 0 <= i < turns ==> Clock(udp, tcp, pause, i) < deadline
    requires forall i :: 0 <= i < turns - 1 ==> !Ends(deadline, udp, tcp, pause, i)
    requires if turns > 0 && Ends(deadline, udp, tcp, pause, turns - 1)
             then elapsed == Clock(udp, tcp, pause, turns - 1) + Spent(udp, tcp, turns - 1)
             else elapsed == Clock(udp, tcp, pause, turns) && elapsed >= deadline
    ensures Waited(deadline, udp, tcp, pause, turns, elapsed)
  {}

  lemma NothingYet(probes: nat -> Probe)
    ensures !SucceededBy(probes, 0)
  {}

  lemma OneMoreTurn(probes: nat -> Probe, i: nat)
    ensures SucceededBy(probes, i + 1) == (SucceededBy(probes, i) || probes(i).ok)
  {}
}
