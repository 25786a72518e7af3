/**
  Many green threads publishing through one publisher. The lookup and the recording are each
  done under the lock, but not together: between them other publishes run. A publish is a small
  state machine and the system takes one step of one publish at a time.
*/
module ConcurrentPublishing {
  import opened Publishing
  import opened Windows

  datatype Phase = Sending | Recording | Finished | GaveUp

  /** One publish: what it sends, how far it is, and when it looked the key up. */
  datatype Publish = Publish(key: string, phase: Phase, attempt: nat, transmissions: nat, checkedAt: nat) {
    predicate InFlight() { phase.Sending? || phase.Recording? }
  }

  /** `entered[k]` is the time at which `k` last came into the set. */
  datatype State = State(window: Window, publishes: map<nat, Publish>, clock: nat, entered: map<string, nat>)

  const START := State(EMPTY, map[], 0, map[])

  datatype Step =
    | Check(pid: nat, key: string)        // the locked lookup, when a publish begins
    | Transmit(pid: nat, taken: bool)     // one try at the broker
    | RecordKey(pid: nat)                 // the locked recording, after the broker took the message

  /** A failed try: the loop goes on, or the publish gives up. */
  function Retry(p: Publish): Publish {
    if p.attempt + 1 < TRIES then p.(phase := Sending, attempt := p.attempt + 1) else p.(phase := GaveUp)
  }

  predicate Enabled(s: State, step: Step) {
    match step
    case Check(pid, key) => pid !in s.publishes
    case Transmit(pid, taken) => pid in s.publishes && s.publishes[pid].phase.Sending?
    case RecordKey(pid) => pid in s.publishes && s.publishes[pid].phase.Recording?
  }

  function Next(s: State, step: Step): State
    requires Enabled(s, step)
  {
    match step
    case Check(pid, key) =>
      var phase := if key in s.window.members then Finished else Sending;
      s.(publishes := s.publishes[pid := Publish(key, phase, 0, 0, s.clock)], clock := s.clock + 1)
    case Transmit(pid, taken) =>
      var p := s.publishes[pid];
      var p' := if taken then p.(phase := Recording, transmissions := p.transmissions + 1) else Retry(p);
      s.(publishes := s.publishes[pid := p'], clock := s.clock + 1)
    case RecordKey(pid) =>
      var p := s.publishes[pid];
      var (window, keyError) := Record(s.window, p.key);
      // the KeyError is raised inside the try block, so the message is sent again
      var p' := if keyError then Retry(p) else p.(phase := Finished);
      State(window, s.publishes[pid := p'], s.clock + 1,
            if p.key in s.window.members then s.entered else s.entered[p.key := s.clock])
  }

  /** The recorded time of a key changes exactly when the key comes into the set. */
  lemma EnteredIsTimeOfEntry(s: State, step: Step)
    requires Enabled(s, step)
    ensures var s' := Next(s, step);
            if step.RecordKey? && s.publishes[step.pid].key !in s.window.members
            then s'.entered == s.entered[s.publishes[step.pid].key := s.clock]
            else s'.entered == s.entered
    ensures Next(s, step).clock == s.clock + 1
  {
  }

  /** A run: every step is enabled where it is taken. */
  ghost predicate IsRun(s: State, steps: seq<Step>)
    decreases |steps|
  {
    steps != [] ==> Enabled(s, steps[0]) && IsRun(Next(s, steps[0]), steps[1..])
  }

  function After(s: State, steps: seq<Step>): State
    requires IsRun(s, steps)
    decreases |steps|
  {
    if steps == [] then s else After(Next(s, steps[0]), steps[1..])
  }

  // ----- One publish -----

  /** A publish of a key that is not known tries three times, and sends at the first try that is taken. */
  lemma TriesOfOnePublish(s: State, pid: nat, key: string)
    requires pid !in s.publishes && key !in s.window.members && Exact(s.window)
    ensures var s1 := Next(s, Check(pid, key));
            var s2 := Next(s1, Transmit(pid, false));
            var s3 := Next(s2, Transmit(pid, false));
            var s4 := Next(s3, Transmit(pid, false));
            && s4.publishes[pid].phase.GaveUp? && s4.publishes[pid].transmissions == 0 && s4.window == s.window
            && forall x :: x in {s1, s2, s3} ==>
                 && pid in x.publishes && x.publishes[pid].phase.Sending?
                 && var y := Next(x, Transmit(pid, true));
                    && y.publishes[pid].phase.Recording? && y.window == s.window
                    && var z := Next(y, RecordKey(pid));
                       && z.publishes[pid].phase.Finished? && z.publishes[pid].transmissions == 1
                       && key in z.window.list && Exact(z.window)
  {
    RecordExact(s.window, key);
    var w := Record(s.window, key).0;
    assert w.list[|w.list| - 1] == key;
  }

  /** A publish of a known key ends at once, without a transmission. */
  lemma KnownKeyIsIgnored(s: State, pid: nat, key: string)
    requires pid !in s.publishes && key in s.window.members
    ensures var s' := Next(s, Check(pid, key));
            && s'.publishes[pid].phase.Finished? && s'.publishes[pid].transmissions == 0 && s'.window == s.window
  {
  }

  /** After a failed eviction the message is tried again, unless that was the third try. */
  lemma FailedEvictionRetries(s: State, pid: nat)
    requires Enabled(s, RecordKey(pid)) && Record(s.window, s.publishes[pid].key).1
    ensures var p, p' := s.publishes[pid], Next(s, RecordKey(pid)).publishes[pid];
            && p'.phase == (if p.attempt < 2 then Sending else GaveUp)
            && p'.transmissions == p.transmissions && (p.attempt < 2 ==> p'.attempt == p.attempt + 1)
            && Next(s, RecordKey(pid)).window == Record(s.window, p.key).0
  {
  }

  // ----- What every interleaving keeps -----

  /** A publish that looked its key up before the key came into the set. */
  predicate CheckedBeforeEntry(s: State, p: Publish) {
    p.key in s.entered && p.checkedAt < s.entered[p.key]
  }

  ghost predicate PublishOk(s: State, p: Publish) {
    && p.checkedAt < s.clock
    && p.attempt < TRIES
    && p.transmissions <= (if p.phase.Sending? then p.attempt else p.attempt + 1)
    && (p.InFlight() && p.key in s.window.members ==> CheckedBeforeEntry(s, p))
  }

  ghost predicate Inv(s: State) {
    && Sound(s.window)
    && forall pid :: pid in s.publishes ==> PublishOk(s, s.publishes[pid])
  }

  lemma StepKeepsInv(s: State, step: Step)
    requires Inv(s) && Enabled(s, step)
    ensures Inv(Next(s, step))
  {
    if step.RecordKey? {
      RecordSound(s.window, s.publishes[step.pid].key);
    }
    var s' := Next(s, step);
    forall pid | pid in s'.publishes
      ensures PublishOk(s', s'.publishes[pid])
    {
      if pid in s.publishes {
        assert PublishOk(s, s.publishes[pid]);
      }
    }
  }

  lemma {:induction false} RunKeepsInv(s: State, steps: seq<Step>)
    requires Inv(s) && IsRun(s, steps)
    ensures Inv(After(s, steps))
    decreases |steps|
  {
    if steps != [] {
      StepKeepsInv(s, steps[0]);
      RunKeepsInv(Next(s, steps[0]), steps[1..]);
    }
  }

  /**
    In every reachable state the set holds only listed keys, the list has at most one hundred
    entries, nobody transmits more than three times, and whoever still sends a key that is in the
    set had looked it up before that key came in.
  */
  lemma ReachableStates(steps: seq<Step>)
    requires IsRun(START, steps)
    ensures var s := After(START, steps);
            && Sound(s.window)
            && |s.window.list| <= 100
            && (forall pid :: pid in s.publishes ==> s.publishes[pid].transmissions <= 3)
            && (forall pid :: pid in s.publishes && s.publishes[pid].phase.Sending?
                              && s.publishes[pid].key in s.window.members
                              ==> CheckedBeforeEntry(s, s.publishes[pid]))
  {
    RunKeepsInv(START, steps);
    var s := After(START, steps);
    forall pid | pid in s.publishes
      ensures s.publishes[pid].transmissions <= 3
    {
      assert PublishOk(s, s.publishes[pid]);
    }
  }

  // ----- When the window stays exact -----

  /** The step records a key that the set still holds. */
  predicate RecordsAgain(s: State, step: Step)
    requires Enabled(s, step)
  {
    step.RecordKey? && s.publishes[step.pid].key in s.window.members
  }

  ghost predicate NeverRecordsAgain(s: State, steps: seq<Step>)
    requires IsRun(s, steps)
    decreases |steps|
  {
    steps != [] ==> !RecordsAgain(s, steps[0]) && NeverRecordsAgain(Next(s, steps[0]), steps[1..])
  }

  /** In every state of the run set and list hold the same keys, each once. */
  ghost predicate ExactThroughout(s: State, steps: seq<Step>)
    requires IsRun(s, steps)
    decreases |steps|
  {
    Exact(s.window) && (steps != [] ==> ExactThroughout(Next(s, steps[0]), steps[1..]))
  }

  /** Over every interleaving the window stays exact if and only if no key is recorded that is still in the set. */
  lemma {:induction false} ExactIffNeverRecordsAgain(s: State, steps: seq<Step>)
    requires Exact(s.window) && IsRun(s, steps)
    ensures ExactThroughout(s, steps) <==> NeverRecordsAgain(s, steps)
    decreases |steps|
  {
    if steps != [] {
      var s' := Next(s, steps[0]);
      if steps[0].RecordKey? {
        RecordExactIff(s.window, s.publishes[steps[0].pid].key);
      }
      if Exact(s'.window) {
        ExactIffNeverRecordsAgain(s', steps[1..]);
      }
    }
  }

  // ----- When nobody else sends the same message -----

  ghost predicate SomeoneSends(s: State, key: string) {
    exists pid :: pid in s.publishes && s.publishes[pid].InFlight() && s.publishes[pid].key == key
  }

  /** A run in which no publish begins while another one of the same key is in flight. */
  ghost predicate IsExclusiveRun(s: State, steps: seq<Step>)
    decreases |steps|
  {
    steps != [] ==>
      && Enabled(s, steps[0])
      && (steps[0].Check? ==> !SomeoneSends(s, steps[0].key))
      && IsExclusiveRun(Next(s, steps[0]), steps[1..])
  }

  ghost predicate ExclusiveInv(s: State) {
    && Exact(s.window)
    && (forall pid :: pid in s.publishes && s.publishes[pid].InFlight() ==> s.publishes[pid].key !in s.window.members)
    && (forall pid, pid' :: pid in s.publishes && pid' in s.publishes && pid != pid'
                            && s.publishes[pid].InFlight() && s.publishes[pid'].InFlight()
                            ==> s.publishes[pid].key != s.publishes[pid'].key)
    && (forall pid :: pid in s.publishes ==>
          s.publishes[pid].transmissions
          <= if s.publishes[pid].phase.Sending? || s.publishes[pid].phase.GaveUp? then 0 else 1)
  }

  lemma ExclusiveStep(s: State, step: Step)
    requires ExclusiveInv(s) && Enabled(s, step)
    requires step.Check? ==> !SomeoneSends(s, step.key)
    ensures ExclusiveInv(Next(s, step))
    ensures step.RecordKey? ==> !Record(s.window, s.publishes[step.pid].key).1
  {
    if step.RecordKey? {
      RecordExact(s.window, s.publishes[step.pid].key);
    }
  }

  /** No recording of the run fails to evict. */
  ghost predicate EvictionsSucceed(s: State, steps: seq<Step>)
    requires IsRun(s, steps)
    decreases |steps|
  {
    steps != [] ==>
      && (steps[0].RecordKey? ==> !Record(s.window, s.publishes[steps[0].pid].key).1)
      && EvictionsSucceed(Next(s, steps[0]), steps[1..])
  }

  lemma {:induction false} ExclusiveRun(s: State, steps: seq<Step>)
    requires ExclusiveInv(s) && IsExclusiveRun(s, steps)
    ensures IsRun(s, steps) && ExclusiveInv(After(s, steps))
    ensures ExactThroughout(s, steps) && EvictionsSucceed(s, steps)
    decreases |steps|
  {
    if steps != [] {
      ExclusiveStep(s, steps[0]);
      ExclusiveRun(Next(s, steps[0]), steps[1..]);
    }
  }

  /**
    Then the window is exact in every state, evicting never fails, and every publish transmits at
    most once, and not at all when it gives up.
  */
  lemma ExclusiveRunIsExact(steps: seq<Step>)
    requires IsExclusiveRun(START, steps)
    ensures IsRun(START, steps) && ExactThroughout(START, steps) && EvictionsSucceed(START, steps)
    ensures forall pid :: pid in After(START, steps).publishes ==>
              var p := After(START, steps).publishes[pid];
              p.transmissions <= 1 && (p.phase.GaveUp? ==> p.transmissions == 0)
  {
    ExclusiveRun(START, steps);
  }

  /** Otherwise not: two publishes of one message can both go out, and the list holds it twice. */
  lemma BothGoOut(key: string)
    ensures var steps := [Check(0, key), Check(1, key), Transmit(0, true), Transmit(1, true),
                          RecordKey(0), RecordKey(1)];
            && IsRun(START, steps)
            && After(START, steps).window == Window([key, key], {key})
            && After(START, steps).publishes.Keys == {0, 1}
            && After(START, steps).publishes[0].transmissions == 1
            && After(START, steps).publishes[1].transmissions == 1
  {
    var s1 := Next(START, Check(0, key));
    var s2 := Next(s1, Check(1, key));
    var s3 := Next(s2, Transmit(0, true));
    var s4 := Next(s3, Transmit(1, true));
    var s5 := Next(s4, RecordKey(0));
    var s6 := Next(s5, RecordKey(1));
    OneMore(s5, RecordKey(1), []);
    OneMore(s4, RecordKey(0), [RecordKey(1)]);
    OneMore(s3, Transmit(1, true), [RecordKey(0), RecordKey(1)]);
    OneMore(s2, Transmit(0, true), [Transmit(1, true), RecordKey(0), RecordKey(1)]);
    OneMore(s1, Check(1, key), [Transmit(0, true), Transmit(1, true), RecordKey(0), RecordKey(1)]);
    OneMore(START, Check(0, key),
            [Check(1, key), Transmit(0, true), Transmit(1, true), RecordKey(0), RecordKey(1)]);
    assert s5.window == Window([key], {key}) && s6.window == Window([key, key], {key});
  }

  lemma OneMore(s: State, step: Step, rest: seq<Step>)
    requires Enabled(s, step) && IsRun(Next(s, step), rest)
    ensures IsRun(s, [step] + rest) && After(s, [step] + rest) == After(Next(s, step), rest)
  {
    assert ([step] + rest)[1..] == rest;
  }
}
