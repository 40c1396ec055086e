/** The login rate limiter (aifw-api/src/main.rs:59-151), refining an event log. */
module LoginLimiter {
  import opened Basics

  /** Instants in nanoseconds. */
  type Time = int

  const SECOND: int := 1_000_000_000

  /** `Duration::num_seconds`: whole seconds, cut off towards zero. */
  function NumSeconds(d: int): int {
    if d >= 0 then d / SECOND else -(-d / SECOND)
  }

  /** The cut is towards zero on both sides. */
  lemma SecondsCut(d: int)
    requires d >= 0
    ensures NumSeconds(-d) == -NumSeconds(d) && NumSeconds(d) * SECOND <= d < (NumSeconds(d) + 1) * SECOND
  {}

  /** A span of `n` whole seconds has not passed until the clock shows `n + 1` of them. */
  lemma WindowLength(d: int, secs: nat)
    ensures NumSeconds(d) <= secs <==> d < (secs + 1) * SECOND
  {}

  // ---------------------------------------------------------------- the event log

  /** What happens to one key of one axis. */
  datatype Event = Failure(key: string, at: Time) | Cleared(key: string)

  /** A counting window: failures so far, and the instant of the first. */
  datatype Window = Window(count: nat, since: Time)

  /** The current window of a key, computed from the log alone, with no pruning: a failure joins the
    * window it falls into or opens a new one; a clear ends it.
    */
  function WindowOf(log: seq<Event>, key: string, secs: nat): Option<Window> {
    if log == [] then None
    else
      var before := WindowOf(log[..|log| - 1], key, secs);
      match log[|log| - 1]
      case Cleared(k) => if k == key then None else before
      case Failure(k, at) =>
        if k != key then before
        else if before.Some? && NumSeconds(at - before.value.since) <= secs
          then Some(Window(before.value.count + 1, before.value.since))
        else Some(Window(1, at))
  }

  predicate Lapsed(w: Window, now: Time, secs: nat) {
    NumSeconds(now - w.since) > secs
  }

  /** Blocked: the current window holds the maximum or more, and has not lapsed. */
  predicate Blocked(log: seq<Event>, key: string, now: Time, max: nat, secs: nat) {
    match WindowOf(log, key, secs)
    case None => false
    case Some(w) => w.count >= max && !Lapsed(w, now, secs)
  }

  function Failures(log: seq<Event>, key: string): nat {
    if log == [] then 0
    else Failures(log[..|log| - 1], key) + (if log[|log| - 1].Failure? && log[|log| - 1].key == key then 1 else 0)
  }

  /** What a window is: it starts at a failure of its key, no clear of the key follows, its count is the
    * number of failures of the key from there on, and each of those fell inside it.
    */
  ghost predicate WindowFrom(log: seq<Event>, key: string, secs: nat, w: Window, start: nat) {
    && start < |log| && log[start] == Failure(key, w.since)
    && w.count == Failures(log[start..], key)
    && forall i :: start <= i < |log| ==>
         && log[i] != Cleared(key)
         && (log[i].Failure? && log[i].key == key ==> NumSeconds(log[i].at - w.since) <= secs)
  }

  lemma FailuresSnoc(log: seq<Event>, e: Event, key: string)
    ensures Failures(log + [e], key) == Failures(log, key) + (if e.Failure? && e.key == key then 1 else 0)
  {
    assert (log + [e])[..|log|] == log;
  }

  /** The recursive window meets that description, in every log. */
  lemma {:induction false} WindowMeaning(log: seq<Event>, key: string, secs: nat) returns (start: nat)
    requires WindowOf(log, key, secs).Some?
    ensures WindowFrom(log, key, secs, WindowOf(log, key, secs).value, start)
  {
    var before, last := log[..|log| - 1], log[|log| - 1];
    var w := WindowOf(log, key, secs).value;
    var w0 := WindowOf(before, key, secs);
    assert log == before + [last];
    if last.Failure? && last.key == key && (w0.None? || NumSeconds(last.at - w0.value.since) > secs) {
      start := |before|;
      OpensWindow(before, last);
    } else {
      start := WindowMeaning(before, key, secs);
      ContinuesWindow(before, last, key, secs, w0.value, start);
    }
  }

  lemma OpensWindow(before: seq<Event>, last: Event)
    requires last.Failure?
    ensures forall secs: nat :: WindowFrom(before + [last], last.key, secs, Window(1, last.at), |before|)
  {
    assert (before + [last])[|before|..] == [] + [last];
    FailuresSnoc([], last, last.key);
  }

  lemma ContinuesWindow(before: seq<Event>, last: Event, key: string, secs: nat, w: Window, start: nat)
    requires WindowFrom(before, key, secs, w, start) && last != Cleared(key)
    requires last.Failure? && last.key == key ==> NumSeconds(last.at - w.since) <= secs
    ensures WindowFrom(before + [last], key, secs,
              if last.Failure? && last.key == key then Window(w.count + 1, w.since) else w, start)
  {
    assert (before + [last])[start..] == before[start..] + [last];
    FailuresSnoc(before[start..], last, key);
  }

  /** Failing again while the window lasts never moves its start, so a block ends when it would have. */
  lemma BlockNotExtended(log: seq<Event>, key: string, at: Time, now: Time, max: nat, secs: nat)
    requires Blocked(log, key, at, max, secs)
    ensures Blocked(log + [Failure(key, at)], key, now, max, secs) <==> Blocked(log, key, now, max, secs)
  {
    assert (log + [Failure(key, at)])[..|log|] == log;
  }

  // ---------------------------------------------------------------- one axis: a pruned hash map

  /** What a pruned map stands for: an entry present is the window of the log, and a window with no entry
    * had lapsed by the last prune.
    */
  ghost predicate Refines(entries: map<string, Window>, log: seq<Event>, pruned: Time, secs: nat) {
    && (forall k: string :: k in entries ==> WindowOf(log, k, secs) == Some(entries[k]))
    && (forall k: string :: WindowOf(log, k, secs).Some? && k !in entries ==>
          Lapsed(WindowOf(log, k, secs).value, pruned, secs))
  }

  /** One of the two hash maps. `log` and `pruned` record what it stands for: every event so far, and the latest
    * instant at which lapsed entries were dropped. A task reads the clock before it gets the lock, so an instant may
    * lie before that.
    */
  class Axis {
    var entries: map<string, Window>
    ghost var log: seq<Event>
    ghost var pruned: Time
    const max: nat
    const secs: nat

    ghost predicate Valid()
      reads this
    {
      max >= 1 && secs >= 1 && Refines(entries, log, pruned, secs)
    }

    constructor (max: nat, secs: nat)
      requires max >= 1 && secs >= 1
      ensures Valid() && log == [] && this.max == max && this.secs == secs && pruned == 0
    {
      this.max, this.secs := max, secs;
      entries, log, pruned := map[], [], 0;
    }

    /** The window of the key has not lapsed at `now`, but a prune at a later instant has dropped it. */
    ghost predicate Forgotten(key: string, now: Time)
      reads this
    {
      var w := WindowOf(log, key, secs);
      w.Some? && key !in entries && !Lapsed(w.value, now, secs)
    }

    /** The log after a failure: a window that was forgotten ends first. */
    ghost function After(key: string, now: Time): seq<Event>
      reads this
    {
      log + (if Forgotten(key, now) then [Cleared(key)] else []) + [Failure(key, now)]
    }

    /** A task served in the order of its clock reading finds nothing forgotten. */
    lemma NothingForgotten(key: string, now: Time)
      requires Valid() && now >= pruned
      ensures !Forgotten(key, now)
    {
      hide WindowOf, Lapsed;
      LapsedStays(pruned, now, secs);
    }

    /** `bump`: prune, count the failure, and say whether the key is now blocked, which is what
      * `over_cap` would say at that instant.
      */
    method Bump(key: string, now: Time) returns (blocked: bool)
      requires Valid()
      modifies this
      ensures Valid() && pruned == Max(old(pruned), now)
      ensures log == old(After(key, now))
      ensures blocked == Blocked(log, key, now, max, secs)
    {
      hide WindowOf, Refines, NumSeconds;
      ghost var forgotten := Forgotten(key, now);
      PruneRefines(entries, log, pruned, now, secs);
      NotInPruned(entries, log, pruned, key, now, secs);
      entries := map k | k in entries && !Lapsed(entries[k], now, secs) :: entries[k];
      pruned := Max(pruned, now);
      if forgotten {
        ForgetRefines(entries, log, key, pruned, secs);
        log := log + [Cleared(key)];
      }
      var entry := if key in entries then entries[key] else Window(0, now);
      StartsNow(now, secs);
      var reset := Lapsed(entry, now, secs);
      assert !reset;  // the code's reset branch is unreachable: such an entry has just been pruned
      CountRefines(entries, log, key, now, pruned, secs);
      entry := Window(if reset then 1 else entry.count + 1, if reset then now else entry.since);
      entries := entries[key := entry];
      log := log + [Failure(key, now)];
      blocked := !reset && entry.count >= max;
    }

    /** `over_cap`: reading the map answers what the log says, unless the window was forgotten. */
    method OverCap(key: string, now: Time) returns (blocked: bool)
      requires Valid()
      ensures blocked == (Blocked(log, key, now, max, secs) && !Forgotten(key, now))
    {
      hide WindowOf, Lapsed;
      blocked := key in entries && !Lapsed(entries[key], now, secs) && entries[key].count >= max;
    }

    method Remove(key: string)
      requires Valid()
      modifies this
      ensures Valid() && pruned == old(pruned) && log == old(log) + [Cleared(key)]
    {
      hide WindowOf, Lapsed;
      WindowSnoc(log, Cleared(key), secs);
      entries := entries - {key};
      log := log + [Cleared(key)];
    }
  }

  lemma SecondsMonotone(a: int, b: int)
    requires a <= b
    ensures NumSeconds(a) <= NumSeconds(b)
  {}

  /** What has lapsed stays lapsed. */
  lemma LapsedStays(was: Time, now: Time, secs: nat)
    requires was <= now
    ensures forall w: Window :: Lapsed(w, was, secs) ==> Lapsed(w, now, secs)
  {
    forall w: Window | Lapsed(w, was, secs) ensures Lapsed(w, now, secs) {
      SecondsMonotone(was - w.since, now - w.since);
    }
  }

  lemma StartsNow(now: Time, secs: nat)
    ensures forall n: nat :: !Lapsed(Window(n, now), now, secs)
  {}

  /** Pruning never changes an answer: the pruned map stands for the same log. */
  lemma PruneRefines(entries: map<string, Window>, log: seq<Event>, was: Time, now: Time, secs: nat)
    requires Refines(entries, log, was, secs)
    ensures Refines(map k | k in entries && !Lapsed(entries[k], now, secs) :: entries[k], log, Max(was, now), secs)
  {
    hide WindowOf, Lapsed;
    LapsedStays(was, Max(was, now), secs);
    LapsedStays(now, Max(was, now), secs);
  }

  /** What a prune drops has lapsed in the log too. */
  lemma NotInPruned(entries: map<string, Window>, log: seq<Event>, was: Time, key: string, now: Time, secs: nat)
    requires Refines(entries, log, was, secs)
    ensures key in entries && Lapsed(entries[key], now, secs) ==>
      WindowOf(log, key, secs).Some? && Lapsed(WindowOf(log, key, secs).value, now, secs)
  {
    hide WindowOf, Lapsed;
  }

  /** A key that is not in the map may as well have been cleared. */
  lemma ForgetRefines(entries: map<string, Window>, log: seq<Event>, key: string, pruned: Time, secs: nat)
    requires Refines(entries, log, pruned, secs) && key !in entries
    ensures Refines(entries, log + [Cleared(key)], pruned, secs)
    ensures WindowOf(log + [Cleared(key)], key, secs) == None
  {
    WindowSnoc(log, Cleared(key), secs);
    hide WindowOf, Lapsed;
  }

  /** Counting one failure on a freshly pruned map. */
  lemma CountRefines(entries: map<string, Window>, log: seq<Event>, key: string, now: Time, pruned: Time, secs: nat)
    requires Refines(entries, log, pruned, secs)
    requires key in entries ==> !Lapsed(entries[key], now, secs)
    requires key !in entries && WindowOf(log, key, secs).Some? ==> Lapsed(WindowOf(log, key, secs).value, now, secs)
    ensures var w := if key in entries then Window(entries[key].count + 1, entries[key].since) else Window(1, now);
      && Refines(entries[key := w], log + [Failure(key, now)], pruned, secs)
      && WindowOf(log + [Failure(key, now)], key, secs) == Some(w) && !Lapsed(w, now, secs)
  {
    WindowSnoc(log, Failure(key, now), secs);
    StartsNow(now, secs);
    hide WindowOf, NumSeconds;
  }

  /** A failure that is served after its window was dropped starts a new one. The answer is still that of the log as
    * it was exactly when the maximum is one, or the old window would not have reached it either.
    */
  lemma LateAnswerExactly(log: seq<Event>, key: string, now: Time, max: nat, secs: nat)
    requires max >= 1 && WindowOf(log, key, secs).Some? && !Lapsed(WindowOf(log, key, secs).value, now, secs)
    ensures (Blocked(log + [Cleared(key)] + [Failure(key, now)], key, now, max, secs) <==> Blocked(log + [Failure(key, now)], key, now, max, secs))
       <==> max == 1 || WindowOf(log, key, secs).value.count + 1 < max
  {
    WindowSnoc(log, Cleared(key), secs);
    WindowSnoc(log + [Cleared(key)], Failure(key, now), secs);
    WindowSnoc(log, Failure(key, now), secs);
    StartsNow(now, secs);
    hide WindowOf, NumSeconds;
  }

  /** A window that began at 0 is dropped by a prune at 301 s, and is still current at 300.5 s. */
  lemma LateExample()
    ensures Lapsed(Window(1, 0), 301 * SECOND, 300) && !Lapsed(Window(1, 0), 300 * SECOND + SECOND / 2, 300)
  {}

  /** How one more event moves the window of every key. */
  lemma WindowSnoc(log: seq<Event>, e: Event, secs: nat)
    ensures forall k: string {:trigger WindowOf(log + [e], k, secs)} ::
      WindowOf(log + [e], k, secs) ==
        if e.key != k then WindowOf(log, k, secs)
        else if e.Cleared? then None
        else if WindowOf(log, k, secs).Some? && !Lapsed(WindowOf(log, k, secs).value, e.at, secs)
          then Some(Window(WindowOf(log, k, secs).value.count + 1, WindowOf(log, k, secs).value.since))
        else Some(Window(1, e.at))
  {
    assert (log + [e])[..|log|] == log;
  }

  // ---------------------------------------------------------------- both axes

  class LoginRateLimiter {
    const byIp: Axis
    const byUser: Axis

    ghost predicate Valid()
      reads this, byIp, byUser
    {
      byIp != byUser && byIp.Valid() && byUser.Valid() && byIp.max == byUser.max && byIp.secs == byUser.secs
    }

    /** `with_limits`: limits below one are raised to one. */
    constructor (maxAttempts: nat, windowSecs: int)
      ensures Valid() && fresh(byIp) && fresh(byUser) && byIp.log == [] && byUser.log == []
      ensures byIp.max == Max(1, maxAttempts) && byIp.secs == Max(1, windowSecs)
      ensures byIp.pruned == 0 && byUser.pruned == 0
    {
      byIp := new Axis(Max(1, maxAttempts), Max(1, windowSecs));
      byUser := new Axis(Max(1, maxAttempts), Max(1, windowSecs));
    }

    /** Count a failure on both axes; each reads the clock for itself. */
    method RecordFailure(ip: string, user: string, ipNow: Time, userNow: Time) returns (blocked: bool)
      requires Valid()
      modifies byIp, byUser
      ensures Valid() && byIp.pruned == Max(old(byIp.pruned), ipNow) && byUser.pruned == Max(old(byUser.pruned), userNow)
      ensures byIp.log == old(byIp.After(ip, ipNow)) && byUser.log == old(byUser.After(user, userNow))
      ensures blocked == (Blocked(byIp.log, ip, ipNow, byIp.max, byIp.secs) || Blocked(byUser.log, user, userNow, byUser.max, byUser.secs))
    {
      var a := byIp.Bump(ip, ipNow);
      var b := byUser.Bump(user, userNow);
      blocked := a || b;
    }

    method IsBlocked(ip: string, user: string, ipNow: Time, userNow: Time) returns (blocked: bool)
      requires Valid()
      ensures blocked ==
        ((Blocked(byIp.log, ip, ipNow, byIp.max, byIp.secs) && !byIp.Forgotten(ip, ipNow))
         || (Blocked(byUser.log, user, userNow, byUser.max, byUser.secs) && !byUser.Forgotten(user, userNow)))
    {
      blocked := byIp.OverCap(ip, ipNow);
      if !blocked {
        blocked := byUser.OverCap(user, userNow);
      }
    }

    /** A success clears the window of both keys and of no other. */
    method Clear(ip: string, user: string)
      requires Valid()
      modifies byIp, byUser
      ensures Valid() && byIp.pruned == old(byIp.pruned) && byUser.pruned == old(byUser.pruned)
      ensures byIp.log == old(byIp.log) + [Cleared(ip)] && byUser.log == old(byUser.log) + [Cleared(user)]
    {
      byIp.Remove(ip);
      byUser.Remove(user);
    }
  }
}
