/** The generation-keyed cluster snapshot cache (aifw-api/src/main.rs:267-297) with concurrent callers and
  * concurrent mutations (aifw-api/src/backup.rs:2577-2587). Atomics are sequentially consistent.
  */
module SnapshotCache {
  import opened Basics

  /** Mutations are numbered; a configuration is the set of mutations it reflects. */
  type Content = set<nat>

  /** A cache entry: its key, what it reflects, and the text and hash it hands out. */
  datatype Entry = Entry(generation: nat, content: Content, json: string, hash: string)

  datatype Caller =
    | Loaded(generation: nat)                      // has read the counter, waits for the cache lock
    | Building(generation: nat, floor: Content)    // holds the lock; `floor` was in the database at the start
    | Returned(generation: nat, content: Content, json: string, hash: string)
    | Failed

  /** Serialising and hashing are library code: arbitrary functions. */
  datatype Codec = Codec(json: Content -> string, hash: string -> string)

  datatype State = State(
    database: Content,        // mutations whose effect is in the database
    bumped: seq<nat>,         // mutations in the order of their generation bumps; the counter is its length
    cache: Option<Entry>,
    holder: Option<nat>,      // the caller holding the cache lock
    callers: seq<Caller>
  )

  const INIT := State({}, [], None, None, [])

  datatype Step =
    | Mutate(id: nat)          // a request's effect reaches the database
    | Bump(id: nat)            // later, that request bumps the generation
    | Call                     // a caller loads the generation
    | Hit(c: nat)              // the lock is free and the entry has the caller's generation
    | Begin(c: nat)            // the lock is free; the caller starts to rebuild (other key, too old, or none)
    | Finish(c: nat, content: Content)   // the rebuild is stored and returned
    | Abort(c: nat)            // the export fails

  predicate Enabled(s: State, step: Step) {
    match step
    case Mutate(id) => id !in s.database
    case Bump(id) => id in s.database && id !in s.bumped
    case Call => true
    case Hit(c) =>
      && c < |s.callers| && s.callers[c].Loaded? && s.holder.None?
      && s.cache.Some? && s.cache.value.generation == s.callers[c].generation
    case Begin(c) => c < |s.callers| && s.callers[c].Loaded? && s.holder.None?
    case Finish(c, content) =>
      // The tables are read one after another while mutations go on: the result lies between what was
      // there when the rebuild began and what is there when it ends.
      c < |s.callers| && s.callers[c].Building? && s.callers[c].floor <= content <= s.database
    case Abort(c) => c < |s.callers| && s.callers[c].Building?
  }

  function Next(k: Codec, s: State, step: Step): State
    requires Enabled(s, step)
  {
    match step
    case Mutate(id) => s.(database := s.database + {id})
    case Bump(id) => s.(bumped := s.bumped + [id])
    case Call => s.(callers := s.callers + [Loaded(|s.bumped|)])
    case Hit(c) =>
      var e := s.cache.value;
      s.(callers := s.callers[c := Returned(e.generation, e.content, e.json, e.hash)])
    case Begin(c) =>
      s.(holder := Some(c), callers := s.callers[c := Building(s.callers[c].generation, s.database)])
    case Finish(c, content) =>
      var g := s.callers[c].generation;
      var json := k.json(content);
      var hash := k.hash(json);
      s.(holder := None,
         cache := Some(Entry(g, content, json, hash)),
         callers := s.callers[c := Returned(g, content, json, hash)])
    case Abort(c) => s.(holder := None, callers := s.callers[c := Failed])
  }

  // ---------------------------------------------------------------- invariant

  /** A configuration keyed by generation `g` reflects the first `g` bumps and matches its text and hash. */
  ghost predicate Sound(k: Codec, bumped: seq<nat>, g: nat, content: Content, json: string, hash: string) {
    && g <= |bumped|
    && (forall i :: 0 <= i < g ==> bumped[i] in content)
    && json == k.json(content) && hash == k.hash(json)
  }

  ghost predicate CallerSound(k: Codec, s: State, c: Caller) {
    match c
    case Loaded(g) => g <= |s.bumped|
    case Building(g, floor) =>
      g <= |s.bumped| && floor <= s.database && forall i :: 0 <= i < g ==> s.bumped[i] in floor
    case Returned(g, content, json, hash) => Sound(k, s.bumped, g, content, json, hash)
    case Failed => true
  }

  ghost predicate Inv(k: Codec, s: State) {
    && (forall i :: 0 <= i < |s.bumped| ==> s.bumped[i] in s.database)
    && (s.cache.Some? ==>
          var e := s.cache.value; Sound(k, s.bumped, e.generation, e.content, e.json, e.hash))
    && (forall c :: 0 <= c < |s.callers| ==> CallerSound(k, s, s.callers[c]))
    && (forall c :: 0 <= c < |s.callers| && s.callers[c].Building? ==> s.holder == Some(c))
  }

  lemma StepKeepsInv(k: Codec, s: State, step: Step)
    requires Inv(k, s) && Enabled(s, step)
    ensures Inv(k, Next(k, s, step))
  {
    var t := Next(k, s, step);
    forall c | 0 <= c < |t.callers| ensures CallerSound(k, t, t.callers[c]) {
      if c < |s.callers| {
        assert CallerSound(k, s, s.callers[c]);
      }
    }
  }

  // ---------------------------------------------------------------- runs

  ghost predicate Run(k: Codec, s: State, steps: seq<Step>, end: State)
    decreases |steps|
  {
    if steps == [] then s == end
    else Enabled(s, steps[0]) && Run(k, Next(k, s, steps[0]), steps[1..], end)
  }

  lemma {:induction false} RunKeepsInv(k: Codec, s: State, steps: seq<Step>, end: State)
    requires Inv(k, s) && Run(k, s, steps, end)
    ensures Inv(k, end)
    ensures s.bumped <= end.bumped
    decreases |steps|
  {
    hide Inv;
    if steps != [] {
      StepKeepsInv(k, s, steps[0]);
      RunKeepsInv(k, Next(k, s, steps[0]), steps[1..], end);
    }
  }

  /** Whatever the interleaving, also when a caller of an older generation overwrites a newer entry: a
    * caller that loaded the counter at `mid` and has returned by `end` was given a snapshot reflecting
    * every mutation bumped before that load, with the hash of exactly the returned text.
    */
  lemma {:induction false} FreshForEveryCaller(k: Codec, before: seq<Step>, mid: State, after: seq<Step>, end: State, c: nat)
    requires Run(k, INIT, before, mid) && c == |mid.callers|
    requires Run(k, Next(k, mid, Call), after, end)
    requires c < |end.callers| && end.callers[c].Returned?
    ensures forall i :: 0 <= i < |mid.bumped| ==> mid.bumped[i] in end.callers[c].content
    ensures end.callers[c].json == k.json(end.callers[c].content)
    ensures end.callers[c].hash == k.hash(end.callers[c].json)
  {
    var s := Next(k, mid, Call);
    RunKeepsInv(k, INIT, before, mid);
    StepKeepsInv(k, mid, Call);
    RunKeepsInv(k, s, after, end);
    KeepsGeneration(k, s, after, end, c);
    assert CallerSound(k, end, end.callers[c]);
    assert forall i :: 0 <= i < |mid.bumped| ==> end.bumped[i] == mid.bumped[i];
  }

  /** The generation a caller was answered for is the one it loaded. */
  lemma {:induction false} KeepsGeneration(k: Codec, s: State, steps: seq<Step>, end: State, c: nat)
    requires Run(k, s, steps, end) && c < |s.callers| && !s.callers[c].Failed?
    ensures c < |end.callers|
    ensures !end.callers[c].Failed? ==> end.callers[c].generation == s.callers[c].generation
    decreases |steps|
  {
    if steps != [] {
      var t := Next(k, s, steps[0]);
      if t.callers[c].Failed? {
        StaysFailed(k, t, steps[1..], end, c);
      } else {
        KeepsGeneration(k, t, steps[1..], end, c);
      }
    }
  }

  lemma {:induction false} StaysFailed(k: Codec, s: State, steps: seq<Step>, end: State, c: nat)
    requires Run(k, s, steps, end) && c < |s.callers| && s.callers[c].Failed?
    ensures c < |end.callers| && end.callers[c].Failed?
    decreases |steps|
  {
    if steps != [] {
      StaysFailed(k, Next(k, s, steps[0]), steps[1..], end, c);
    }
  }
}
