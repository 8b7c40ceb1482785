/** The collection wrapper's retry loop is a run of the allocation protocol. */
module AllocationRuns {
  import opened Values
  import opened VersionKeys
  import opened MongoVersions
  import AuditTrail

  /** Client d allocates n versions of an entity whose counter exists. */
  lemma {:induction false} OthersAllocate(s: State, d: Client, key: Key, n: nat) returns (steps: seq<Step>)
    requires d !in s.running && key in s.counters
    ensures Legal(s, steps)
    ensures Exec(s, steps).counters == s.counters[key := s.counters[key] + n]
    ensures Exec(s, steps).running == s.running && Exec(s, steps).attempts == s.attempts
  {
    if n == 0 {
      steps := [];
      assert s.counters[key := s.counters[key]] == s.counters;
    } else {
      var init := OthersAllocate(s, d, key, n - 1);
      var mid := Exec(s, init);
      var one := AllocateExisting(mid, d, key);
      ExecAppend(s, init, one);
      steps := init + one;
    }
  }

  /** A call that finds its counter. */
  lemma AllocateExisting(s: State, c: Client, key: Key) returns (steps: seq<Step>)
    requires c !in s.running && key in s.counters
    ensures Legal(s, steps)
    ensures Exec(s, steps).counters == s.counters[key := s.counters[key] + 1]
    ensures Exec(s, steps).running == s.running && Exec(s, steps).attempts == s.attempts
    ensures Exec(s, steps).granted == s.granted + [(key, s.counters[key] + 1)]
    ensures Exec(s, steps).failures == s.failures
  {
    steps := [Call(c, key)];
    ExecThen(s, [], Call(c, key));
    var called := Exec(s, steps);
    ExecThen(s, steps, Match(c));
    assert called.running - {c} == s.running;
    steps := steps + [Match(c)];
  }

  /** A call that creates its counter, nobody being in the way. */
  lemma AllocateFirst(s: State, c: Client, key: Key) returns (steps: seq<Step>)
    requires c !in s.running && key !in s.counters
    ensures Legal(s, steps)
    ensures Exec(s, steps).counters == s.counters[key := 1]
    ensures Exec(s, steps).running == s.running && Exec(s, steps).attempts == s.attempts
    ensures Exec(s, steps).granted == s.granted + [(key, 1)]
  {
    steps := [Call(c, key)];
    ExecThen(s, [], Call(c, key));
    ExecThen(s, steps, Match(c));
    steps := steps + [Match(c)];
    var inserting := Exec(s, steps);
    ExecThen(s, steps, InsertNew(c));
    assert inserting.running - {c} == s.running;
    steps := steps + [InsertNew(c)];
  }

  /** A call that is overtaken between its match and its insert by client d, who
      allocates n versions, and is sent back to match again. */
  lemma Overtaken(s: State, c: Client, d: Client, key: Key, n: nat) returns (steps: seq<Step>)
    requires c != d && c !in s.running && d !in s.running && key !in s.counters && n > 0 && s.attempts == 2
    ensures Legal(s, steps)
    ensures Exec(s, steps).counters == s.counters[key := n]
    ensures Exec(s, steps).running == s.running[c := Matching(key, 2)] && Exec(s, steps).attempts == 2
  {
    steps := [Call(c, key)];
    ExecThen(s, [], Call(c, key));
    ExecThen(s, steps, Match(c));
    steps := steps + [Match(c)];
    var inserting := Exec(s, steps);
    var first := AllocateFirst(inserting, d, key);
    ExecAppend(s, steps, first);
    steps := steps + first;
    var more := OthersAllocate(Exec(s, steps), d, key, n - 1);
    ExecAppend(s, steps, more);
    steps := steps + more;
    ExecThen(s, steps, InsertNew(c));
    steps := steps + [InsertNew(c)];
  }

  /** Whatever the environment of a write, the loop's result is that of a legal run
      of the protocol: the same counters, and the granted version is the loop's, or
      the call failed on a fault that is not the duplicate key. */
  lemma RetryLoopIsARun(s: State, c: Client, d: Client, key: Key, env: AuditTrail.Env) returns (steps: seq<Step>)
    requires c != d && c !in s.running && d !in s.running && s.attempts == 2
    ensures Legal(s, steps)
    ensures var (counter, version) := AuditTrail.Allocation(AuditTrail.CounterAt(s.counters, key), env);
      && Exec(s, steps).counters == AuditTrail.WithCounter(s.counters, key, counter)
      && (version.Some? ==>
            Exec(s, steps).granted != [] &&
            Exec(s, steps).granted[|Exec(s, steps).granted| - 1] == (key, version.value))
      && (version.None? ==> OtherFault in Exec(s, steps).failures)
  {
    if env.faultyAttempt == Some(0) {
      steps := [Call(c, key)];
      ExecThen(s, [], Call(c, key));
      ExecThen(s, steps, Fault(c));
      steps := steps + [Fault(c)];
      assert key in s.counters ==> s.counters[key := s.counters[key]] == s.counters;
    } else if key in s.counters {
      steps := AllocateExisting(s, c, key);
    } else if env.others == 0 {
      steps := AllocateFirst(s, c, key);
    } else {
      steps := Overtaken(s, c, d, key, env.others);
      var last := if env.faultyAttempt == Some(1) then Fault(c) else Match(c);
      ExecThen(s, steps, last);
      steps := steps + [last];
    }
  }
}
