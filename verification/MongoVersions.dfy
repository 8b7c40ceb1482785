/** Version allocation by find-and-increment with upsert. The server runs an
    upsert in two steps, matching the counter document and inserting a missing
    one, and another client's insert can come in between; the insert then fails
    on the duplicate key and the caller may try once more. Counter documents are
    never deleted. */
module MongoVersions {
  import opened Values
  import opened VersionKeys
  import opened VersionSequences

  type Client = nat

  datatype Stage =
    | Matching(key: Key, attempt: nat)
    | Inserting(key: Key, attempt: nat)

  datatype Failure = DuplicateKey | OtherFault

  /** `granted` lists the versions returned to callers, in server order; `spent`
      counts increments whose reply never arrived. `attempts` is how often the
      caller tries: 2 for the collection wrapper, 1 for the GORM store. */
  datatype State = State(
    attempts: nat,
    counters: map<Key, nat>,
    running: map<Client, Stage>,
    granted: seq<(Key, nat)>,
    spent: multiset<Key>,
    failures: multiset<Failure>)

  datatype Step =
    | Call(c: Client, key: Key)
    | Match(c: Client)
    | InsertNew(c: Client)
    | Fault(c: Client)
    | LostReply(c: Client)

  predicate Enabled(s: State, step: Step) {
    match step
    case Call(c, _) => c !in s.running
    case Match(c) => c in s.running && s.running[c].Matching?
    case InsertNew(c) => c in s.running && s.running[c].Inserting?
    case Fault(c) => c in s.running
    case LostReply(c) => c in s.running && (s.running[c].Matching? <==> s.running[c].key in s.counters)
  }

  function Returned(s: State, c: Client, version: nat): State
    requires c in s.running
  {
    s.(counters := s.counters[s.running[c].key := version],
       granted := s.granted + [(s.running[c].key, version)],
       running := s.running - {c})
  }

  function Failed(s: State, c: Client, f: Failure): State {
    s.(running := s.running - {c}, failures := s.failures + multiset{f})
  }

  function Apply(s: State, step: Step): State
    requires Enabled(s, step)
  {
    match step
    case Call(c, key) => s.(running := s.running[c := Matching(key, 1)])
    case Match(c) =>
      var at := s.running[c];
      if at.key in s.counters then Returned(s, c, s.counters[at.key] + 1)
      else s.(running := s.running[c := Inserting(at.key, at.attempt)])
    case InsertNew(c) =>
      var at := s.running[c];
      if at.key !in s.counters then Returned(s, c, 1)
      // A duplicate key error: the counter appeared since the match.
      else if at.attempt < s.attempts then s.(running := s.running[c := Matching(at.key, at.attempt + 1)])
      else Failed(s, c, DuplicateKey)
    case Fault(c) => Failed(s, c, OtherFault)
    case LostReply(c) =>
      var key := s.running[c].key;
      Failed(s.(counters := s.counters[key := Counter(s, key) + 1], spent := s.spent + multiset{key}), c, OtherFault)
  }

  predicate Legal(s: State, steps: seq<Step>)
    decreases |steps|
  {
    steps == [] || (Enabled(s, steps[0]) && Legal(Apply(s, steps[0]), steps[1..]))
  }

  function Exec(s: State, steps: seq<Step>): State
    requires Legal(s, steps)
    decreases |steps|
  {
    if steps == [] then s else Exec(Apply(s, steps[0]), steps[1..])
  }

  function Start(attempts: nat): State {
    State(attempts, map[], map[], [], multiset{}, multiset{})
  }

  /** The versions granted for one entity, in order. */
  function GrantsOf(granted: seq<(Key, nat)>, key: Key): seq<nat> {
    if granted == [] then []
    else GrantsOf(granted[..|granted| - 1], key) +
         (if granted[|granted| - 1].0 == key then [granted[|granted| - 1].1] else [])
  }

  function Counter(s: State, key: Key): nat {
    if key in s.counters then s.counters[key] else 0
  }

  ghost predicate KeyInv(s: State, key: Key) {
    var versions := GrantsOf(s.granted, key);
    && Increasing(versions) && Between(versions, 0, Counter(s, key))
    && |versions| + s.spent[key] == Counter(s, key)
  }

  /** A second attempt is only ever made on a counter that exists. */
  ghost predicate Inv(s: State) {
    && (forall k :: KeyInv(s, k))
    && (forall k | k in s.counters :: s.counters[k] >= 1)
    && (forall c | c in s.running && s.running[c].attempt > 1 ::
          s.running[c].Matching? && s.running[c].key in s.counters)
    && (forall c | c in s.running :: s.running[c].attempt >= 1)
    && (s.attempts >= 2 ==> DuplicateKey !in s.failures)
  }

  lemma GrantAppended(granted: seq<(Key, nat)>, grant: (Key, nat), key: Key)
    ensures GrantsOf(granted + [grant], key) == GrantsOf(granted, key) + (if grant.0 == key then [grant.1] else [])
  {
    assert (granted + [grant])[..|granted|] == granted;
  }

  lemma ReturnedKept(s: State, c: Client, key: Key)
    requires c in s.running && KeyInv(s, key)
    ensures KeyInv(Returned(s, c, Counter(s, s.running[c].key) + 1), key)
  {
    GrantAppended(s.granted, (s.running[c].key, Counter(s, s.running[c].key) + 1), key);
  }

  lemma LostReplyKept(s: State, c: Client, key: Key)
    requires KeyInv(s, key) && Enabled(s, LostReply(c))
    ensures KeyInv(Apply(s, LostReply(c)), key)
  {
    assert Apply(s, LostReply(c)).granted == s.granted;
  }

  lemma SameCountsKept(s: State, next: State, key: Key)
    requires KeyInv(s, key)
    requires next.granted == s.granted && next.counters == s.counters && next.spent == s.spent
    ensures KeyInv(next, key)
  {
  }

  lemma KeyStep(s: State, step: Step, key: Key)
    requires KeyInv(s, key) && Enabled(s, step)
    ensures KeyInv(Apply(s, step), key)
  {
    if step.LostReply? {
      LostReplyKept(s, step.c, key);
    } else if Apply(s, step).granted != s.granted {
      ReturnedKept(s, step.c, key);
    } else {
      SameCountsKept(s, Apply(s, step), key);
    }
  }

  lemma InvStep(s: State, step: Step)
    requires Inv(s) && Enabled(s, step)
    ensures Inv(Apply(s, step)) && Apply(s, step).attempts == s.attempts
  {
    forall k
      ensures KeyInv(Apply(s, step), k)
    {
      KeyStep(s, step, k);
    }
  }

  lemma {:induction false} InvExec(s: State, steps: seq<Step>)
    requires Inv(s) && Legal(s, steps)
    ensures Inv(Exec(s, steps)) && Exec(s, steps).attempts == s.attempts
    decreases |steps|
  {
    if steps != [] {
      InvStep(s, steps[0]);
      InvExec(Apply(s, steps[0]), steps[1..]);
    }
  }

  /** In every interleaving, with any faults and however often callers retry: no
      two allocations of an entity return the same version, later ones return
      larger ones, and every number is either granted or spent on a lost reply. */
  lemma GrantsAreUnique(attempts: nat, steps: seq<Step>, key: Key)
    requires Legal(Start(attempts), steps)
    ensures var s := Exec(Start(attempts), steps);
      && Increasing(GrantsOf(s.granted, key))
      && Between(GrantsOf(s.granted, key), 0, Counter(s, key))
      && |GrantsOf(s.granted, key)| + s.spent[key] == Counter(s, key)
  {
    InvExec(Start(attempts), steps);
    assert KeyInv(Exec(Start(attempts), steps), key);
  }

  /** The versions granted are exactly 1..n of the counter if and only if no reply
      was lost after its increment. */
  lemma GaplessIffNoReplyLost(attempts: nat, steps: seq<Step>, key: Key)
    requires Legal(Start(attempts), steps)
    ensures var s := Exec(Start(attempts), steps);
      GrantsOf(s.granted, key) == Run(0, Counter(s, key)) <==> key !in s.spent
  {
    GrantsAreUnique(attempts, steps, key);
    var s := Exec(Start(attempts), steps);
    GaplessIff(GrantsOf(s.granted, key), 0, Counter(s, key));
  }

  /** Two attempts always suffice: no interleaving makes a caller that retries
      once give up on the duplicate key. */
  lemma TwoAttemptsSuffice(attempts: nat, steps: seq<Step>)
    requires attempts >= 2 && Legal(Start(attempts), steps)
    ensures DuplicateKey !in Exec(Start(attempts), steps).failures
  {
    InvExec(Start(attempts), steps);
  }

  lemma {:induction false} ExecAppend(s: State, a: seq<Step>, b: seq<Step>)
    requires Legal(s, a) && Legal(Exec(s, a), b)
    ensures Legal(s, a + b) && Exec(s, a + b) == Exec(Exec(s, a), b)
    decreases |a|
  {
    if a == [] {
      assert a + b == b;
    } else {
      ExecAppend(Apply(s, a[0]), a[1..], b);
      assert (a + b)[0] == a[0] && (a + b)[1..] == a[1..] + b;
    }
  }

  lemma ExecThen(s: State, steps: seq<Step>, step: Step)
    requires Legal(s, steps) && Enabled(Exec(s, steps), step)
    ensures Legal(s, steps + [step]) && Exec(s, steps + [step]) == Apply(Exec(s, steps), step)
  {
    var next := Exec(s, steps);
    assert [step][1..] == [];
    assert Legal(Apply(next, step), []) && Legal(next, [step]) && Exec(next, [step]) == Apply(next, step);
    ExecAppend(s, steps, [step]);
  }

  // ---------------------------------------------------------------------
  // When a call can give up on the duplicate key
  // ---------------------------------------------------------------------

  /** The step makes the caller give up: its insert meets a counter that appeared
      since its match, and it has no attempt left. */
  predicate GivesUpNow(s: State, step: Step, c: Client)
    requires Enabled(s, step)
  {
    && step == InsertNew(c) && s.running[c].key in s.counters
    && s.running[c].attempt >= s.attempts
  }

  /** The call that c is in gives up during the run. */
  predicate GivesUp(s: State, steps: seq<Step>, c: Client)
    requires Legal(s, steps)
    decreases |steps|
  {
    && steps != [] && c in s.running
    && (GivesUpNow(s, steps[0], c) || GivesUp(Apply(s, steps[0]), steps[1..], c))
  }

  lemma {:induction false} GivingUpIsADuplicateKey(s: State, steps: seq<Step>, c: Client)
    requires Legal(s, steps) && (GivesUp(s, steps, c) || DuplicateKey in s.failures)
    ensures DuplicateKey in Exec(s, steps).failures
    decreases |steps|
  {
    if steps != [] {
      GivingUpIsADuplicateKey(Apply(s, steps[0]), steps[1..], c);
    }
  }

  /** The call matches a counter that exists, or has an attempt left. */
  predicate IsSafe(s: State, c: Client) {
    c in s.running ==>
      (s.running[c].Matching? && s.running[c].key in s.counters) || s.running[c].attempt < s.attempts
  }

  lemma {:induction false} SafeCallsDoNotGiveUp(s: State, steps: seq<Step>, c: Client)
    requires Legal(s, steps) && IsSafe(s, c)
    ensures !GivesUp(s, steps, c)
    decreases |steps|
  {
    if steps != [] && c in s.running {
      var next := Apply(s, steps[0]);
      if c in next.running {
        assert IsSafe(next, c);
        SafeCallsDoNotGiveUp(next, steps[1..], c);
      }
    }
  }

  lemma GivesUpLater(s: State, step: Step, rest: seq<Step>, c: Client)
    requires Enabled(s, step) && Legal(Apply(s, step), rest) && c in s.running && GivesUp(Apply(s, step), rest, c)
    ensures Legal(s, [step] + rest) && GivesUp(s, [step] + rest, c)
  {
    assert ([step] + rest)[1..] == rest;
  }

  /** With one attempt, a missing counter and another client creating it between
      the match and the insert. */
  lemma LosingRace(s: State, c: Client, d: Client, key: Key) returns (steps: seq<Step>)
    requires c != d && d !in s.running && c in s.running && s.running[c] == Matching(key, 1)
    requires s.attempts <= 1 && key !in s.counters
    ensures Legal(s, steps) && GivesUp(s, steps, c)
  {
    var s1 := Apply(s, Match(c));
    var s2 := Apply(s1, Call(d, key));
    var s3 := Apply(s2, Match(d));
    var s4 := Apply(s3, InsertNew(d));
    steps := [InsertNew(c)];
    assert Enabled(s4, InsertNew(c)) && Legal(Apply(s4, InsertNew(c)), steps[1..]);
    assert GivesUpNow(s4, InsertNew(c), c);
    GivesUpLater(s3, InsertNew(d), steps, c);
    steps := [InsertNew(d)] + steps;
    GivesUpLater(s2, Match(d), steps, c);
    steps := [Match(d)] + steps;
    GivesUpLater(s1, Call(d, key), steps, c);
    steps := [Call(d, key)] + steps;
    GivesUpLater(s, Match(c), steps, c);
    steps := [Match(c)] + steps;
  }

  ghost predicate CanGiveUp(s: State, c: Client) {
    exists steps :: Legal(s, steps) && GivesUp(s, steps, c)
  }

  /** From any state, a call can end on a duplicate key in some continuation if and
      only if callers try once and the entity has no counter yet when it starts.
      Another client, d, is idle. */
  lemma CanGiveUpIff(s: State, c: Client, d: Client, key: Key)
    requires Enabled(s, Call(c, key)) && c != d && d !in s.running
    ensures CanGiveUp(Apply(s, Call(c, key)), c) <==> s.attempts <= 1 && key !in s.counters
  {
    var called := Apply(s, Call(c, key));
    if s.attempts <= 1 && key !in s.counters {
      var steps := LosingRace(called, c, d, key);
    } else {
      forall steps | Legal(called, steps)
        ensures !GivesUp(called, steps, c)
      {
        SafeCallsDoNotGiveUp(called, steps, c);
      }
    }
  }

  /** A single attempt does not: two first allocations of an entity can collide. */
  lemma OneAttemptCanFail(key: Key) returns (steps: seq<Step>)
    ensures Legal(Start(1), steps)
    ensures DuplicateKey in Exec(Start(1), steps).failures
  {
    var s := Start(1);
    var race := [Call(0, key), Call(1, key), Match(0), Match(1), InsertNew(0), InsertNew(1)];
    steps := [];
    ghost var now := s;
    for i := 0 to |race|
      invariant steps == race[..i] && Legal(s, steps) && now == Exec(s, steps)
      invariant now.attempts == 1
      invariant i <= 4 ==> now.counters == map[]
      invariant i == 1 ==> now.running == map[0 := Matching(key, 1)]
      invariant i == 0 ==> now.running == map[]
      invariant i == 2 ==> now.running == map[0 := Matching(key, 1), 1 := Matching(key, 1)]
      invariant i == 3 ==> now.running == map[0 := Inserting(key, 1), 1 := Matching(key, 1)]
      invariant i == 4 ==> now.running == map[0 := Inserting(key, 1), 1 := Inserting(key, 1)]
      invariant i == 5 ==> now.running == map[1 := Inserting(key, 1)] && key in now.counters
      invariant i == 6 ==> DuplicateKey in now.failures
    {
      assert Enabled(now, race[i]);
      ExecThen(s, steps, race[i]);
      steps := steps + [race[i]];
      now := Apply(now, race[i]);
    }
  }

  /** How many of its own server steps a call can still take. */
  function Remaining(s: State, at: Stage): int {
    2 * (s.attempts - at.attempt) + if at.Matching? then 2 else 1
  }

  /** Whatever the others do, each step of a call ends it or brings its end
      closer, and steps of others do not push it back. */
  lemma CallsMakeProgress(s: State, step: Step, c: Client)
    requires Enabled(s, step) && c in s.running && s.running[c].attempt <= s.attempts
    ensures var next := Apply(s, step);
      && (c in next.running ==>
            && 1 <= Remaining(next, next.running[c])
            && next.running[c].attempt <= next.attempts
            && if step.c == c then Remaining(next, next.running[c]) < Remaining(s, s.running[c])
               else next.running[c] == s.running[c])
      && (c !in next.running ==> step.c == c)
  {
  }

  /** Some state of the run no longer has the call. */
  ghost predicate Ends(s: State, steps: seq<Step>, c: Client)
    requires Legal(s, steps)
    decreases |steps|
  {
    c !in s.running || (steps != [] && Ends(Apply(s, steps[0]), steps[1..], c))
  }

  function OwnSteps(steps: seq<Step>, c: Client): nat {
    if steps == [] then 0 else (if steps[0].c == c then 1 else 0) + OwnSteps(steps[1..], c)
  }

  /** In every interleaving a call is over by the time it has taken the server
      steps that remain to it: no schedule makes it retry for ever. */
  lemma {:induction false} CallsEnd(s: State, steps: seq<Step>, c: Client)
    requires Legal(s, steps) && c in s.running && s.running[c].attempt <= s.attempts
    requires OwnSteps(steps, c) >= Remaining(s, s.running[c])
    ensures Ends(s, steps, c)
    decreases |steps|
  {
    CallsMakeProgress(s, steps[0], c);
    var next := Apply(s, steps[0]);
    if c in next.running {
      CallsEnd(next, steps[1..], c);
    }
  }

  /** The wrapper's calls take at most four server steps. */
  lemma FourStepsSuffice(s: State, steps: seq<Step>, c: Client, key: Key)
    requires s.attempts == 2 && Enabled(s, Call(c, key)) && Legal(Apply(s, Call(c, key)), steps)
    requires OwnSteps(steps, c) >= 4
    ensures Ends(Apply(s, Call(c, key)), steps, c)
  {
    CallsEnd(Apply(s, Call(c, key)), steps, c);
  }
}
