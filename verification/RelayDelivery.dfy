/**
  Which way the events of the relay go: who puts what on the exchange, and that every event for the
  outside is handed to the outside by every node.
*/
module RelayDelivery {
  import opened Strings
  import opened Windows
  import opened QueueHandling
  import opened Relay

  // ----- What a node has to do with an id -----

  /** How many tasks of the list send `id` outside. */
  function OutsideTasks(tasks: seq<Task>, id: string): nat {
    if tasks == [] then 0
    else (if tasks[0].ToOutside? && tasks[0].event.id == id then 1 else 0) + OutsideTasks(tasks[1..], id)
  }

  predicate WaitsForExchange(node: Node, id: string) { exists t :: t in node.tasks && t.ToNodes? && t.event.id == id }

  /** A node puts an id on the exchange for one of three reasons. */
  predicate HasCause(sys: System, s: State, n: nat, id: string)
    requires n < |s.nodes|
  {
    || (n, id) in s.injectedAt
    || (id in sys.verbs && sys.verbs[id].Ban? && (n, id) !in sys.here && id in s.nodes[n].handler.handled.members)
    || s.refused[(n, id)] > 0
  }

  /** What a node sends or has sent to the exchange it has a cause for, and the other way round. */
  ghost predicate CausesOk(sys: System, s: State, n: nat, id: string)
    requires n < |s.nodes|
  {
    id in s.nodes[n].sent.members || WaitsForExchange(s.nodes[n], id) <==> HasCause(sys, s, n, id)
  }

  /** An event for the outside that was handled was handed to the outside once, or still waits. */
  ghost predicate OutsideOk(sys: System, s: State, n: nat, id: string)
    requires n < |s.nodes|
  {
    var node := s.nodes[n];
    && s.takenOutside[(n, id)] + s.refused[(n, id)] + OutsideTasks(node.tasks, id)
       == (if id in node.handler.handled.members && id in sys.verbs && sys.verbs[id].Other? then 1 else 0)
    && (id in node.sentOutside.members <==> s.takenOutside[(n, id)] > 0)
  }

  /** Only what was injected here goes onto the exchange without a revision, unless it was refused outside. */
  ghost predicate RevisionsOk(s: State, n: nat)
    requires n < |s.nodes|
  {
    forall t :: t in s.nodes[n].tasks && t.ToNodes? && (n, t.event.id) !in s.injectedAt ==> t.event.revision.Some?
  }

  ghost predicate IdOk(sys: System, s: State, n: nat, id: string)
    requires n < |s.nodes|
  {
    CausesOk(sys, s, n, id) && OutsideOk(sys, s, n, id)
  }

  ghost predicate WaysOk(sys: System, s: State) {
    && (forall n :: 0 <= n < |s.nodes| ==> RevisionsOk(s, n))
    && (forall n, id :: 0 <= n < |s.nodes| ==> IdOk(sys, s, n, id))
  }

  // ----- Tasks -----

  lemma {:induction false} OutsideTasksConcat(a: seq<Task>, b: seq<Task>, id: string)
    ensures OutsideTasks(a + b, id) == OutsideTasks(a, id) + OutsideTasks(b, id)
  {
    if a == [] {
      assert a + b == b;
    } else {
      assert (a + b)[0] == a[0] && (a + b)[1..] == a[1..] + b;
      OutsideTasksConcat(a[1..], b, id);
    }
  }

  lemma OutsideTasksWithout(tasks: seq<Task>, i: nat, id: string)
    requires i < |tasks|
    ensures OutsideTasks(Without(tasks, i), id)
            == OutsideTasks(tasks, id) - (if tasks[i].ToOutside? && tasks[i].event.id == id then 1 else 0)
  {
    var before, t, after := tasks[..i], [tasks[i]], tasks[i + 1..];
    assert tasks == before + (t + after);
    OutsideTasksConcat(before, t + after, id);
    OutsideTasksConcat(t, after, id);
    OutsideTasksConcat(before, after, id);
    assert t[1..] == [];
  }

  lemma WaitsAfter(a: Node, b: Node, more: seq<Task>, id: string)
    requires b.tasks == a.tasks + more
    ensures WaitsForExchange(b, id)
            <==> WaitsForExchange(a, id) || exists t :: t in more && t.ToNodes? && t.event.id == id
  {
    if t :| t in a.tasks && t.ToNodes? && t.event.id == id {
      assert t in b.tasks;
    }
    if t :| t in more && t.ToNodes? && t.event.id == id {
      assert t in b.tasks;
    }
  }

  // ----- Steps -----

  lemma InjectKeepsWays(sys: System, s: State, m: nat, k: string, n: nat, id: string)
    requires Enabled(sys, s, Inject(m, k)) && n < |s.nodes|
    requires RevisionsOk(s, n) && IdOk(sys, s, n, id)
    ensures var s' := Next(sys, s, Inject(m, k));
            RevisionsOk(s', n) && IdOk(sys, s', n, id)
  {
    var s' := Next(sys, s, Inject(m, k));
    if m == n {
      var added := [ToNodes(Event(k, None))];
      assert s'.nodes[n].tasks == s.nodes[n].tasks + added;
      WaitsAfter(s.nodes[n], s'.nodes[n], added, id);
      OutsideTasksConcat(s.nodes[n].tasks, added, id);
      assert added[1..] == [] && added[0] in added;
    }
  }

  /** What a reaction publishes, by verb. */
  lemma ReactTasks(h: Handler, e: Event, verb: Verb, here: bool)
    ensures var r := React(h, e, verb, here);
            r.tasks == if !r.took || verb.Local? || (verb.Ban? && here) then []
                       else if verb.Ban? then [ToNodes(Event(e.id, Some(0)))] else [ToOutside(e)]
  {
  }

  lemma DeliverKeepsWays(sys: System, s: State, m: nat, i: nat, n: nat, id: string)
    requires sys.Few() && Inv(sys, s) && Enabled(sys, s, Deliver(m, i)) && n < |s.nodes|
    requires RevisionsOk(s, n) && IdOk(sys, s, n, id)
    ensures var s' := Next(sys, s, Deliver(m, i));
            RevisionsOk(s', n) && IdOk(sys, s', n, id)
  {
    var s' := Next(sys, s, Deliver(m, i));
    if m == n {
      var node, e := s.nodes[n], s.nodes[n].inbox[i];
      var verb, here := sys.verbs[e.id], (n, e.id) in sys.here;
      var r := React(node.handler, e, verb, here);
      assert NodeOk(sys, node);
      ReactionOk(sys, node, n, e);
      ReactTasks(node.handler, e, verb, here);
      WaitsAfter(node, s'.nodes[n], r.tasks, id);
      OutsideTasksConcat(node.tasks, r.tasks, id);
      if r.tasks != [] {
        assert r.tasks[1..] == [] && r.tasks[0] in r.tasks;
      }
    }
  }

  /** A publisher thread has taken its task: what the node owes is one less. */
  lemma TakenWays(sys: System, s: State, m: nat, i: nat, n: nat, id: string)
    requires m < |s.nodes| && i < |s.nodes[m].tasks| && n < |s.nodes|
    requires RevisionsOk(s, n)
    ensures var t := s.nodes[m].tasks[i];
            var node, node' := s.nodes[n], Taken(s, m, i).nodes[n];
            && RevisionsOk(Taken(s, m, i), n)
            && OutsideTasks(node'.tasks, id)
               == OutsideTasks(node.tasks, id) - (if m == n && t.ToOutside? && t.event.id == id then 1 else 0)
            && (WaitsForExchange(node', id) ==> WaitsForExchange(node, id))
            && (WaitsForExchange(node, id) && !(m == n && t.ToNodes? && t.event.id == id)
                ==> WaitsForExchange(node', id))
  {
    if m == n {
      OutsideTasksWithout(s.nodes[n].tasks, i, id);
      WithoutHas(s.nodes[n].tasks, i);
      var node, node' := s.nodes[n], Taken(s, m, i).nodes[n];
      if WaitsForExchange(node, id) && !(s.nodes[m].tasks[i].ToNodes? && s.nodes[m].tasks[i].event.id == id) {
        var w :| w in node.tasks && w.ToNodes? && w.event.id == id;
        assert w in node'.tasks;
      }
      if WaitsForExchange(node', id) {
        var w :| w in node'.tasks && w.ToNodes? && w.event.id == id;
        assert w in node.tasks;
      }
    }
  }

  /** Broadcasting remembers the id and changes nothing else that counts here. */
  lemma BroadcastWays(sys: System, s: State, m: nat, e: Event, n: nat)
    requires sys.Few() && m < |s.nodes| && n < |s.nodes| && WindowsOk(sys, s.nodes[m]) && e.id in sys.verbs
    ensures var s' := Broadcast(s, m, e);
            && |s'.nodes| == |s.nodes| && s'.nodes[n].tasks == s.nodes[n].tasks
            && s'.nodes[n].handler == s.nodes[n].handler && s'.nodes[n].sentOutside == s.nodes[n].sentOutside
            && s'.nodes[n].sent.members == s.nodes[n].sent.members + (if m == n then {e.id} else {})
            && s'.injectedAt == s.injectedAt && s'.takenOutside == s.takenOutside && s'.refused == s.refused
  {
    if e.id !in s.nodes[m].sent.members {
      RecordAmongFew(s.nodes[m].sent, e.id, sys.verbs.Keys);
    }
  }

  /** What the node looks like to these invariants. */
  predicate SameButSent(a: Node, b: Node, more: set<string>) {
    && b.tasks == a.tasks && b.handler == a.handler && b.sentOutside == a.sentOutside
    && b.sent.members == a.sent.members + more
  }

  lemma PublishToNodes(sys: System, s: State, m: nat, i: nat, up: bool, n: nat, id: string)
    requires sys.Few() && Inv(sys, s) && Enabled(sys, s, Publish(m, i, up)) && n < |s.nodes|
    requires RevisionsOk(s, n) && IdOk(sys, s, n, id) && s.nodes[m].tasks[i].ToNodes?
    ensures var s' := Next(sys, s, Publish(m, i, up));
            RevisionsOk(s', n) && IdOk(sys, s', n, id)
  {
    var t, s1 := s.nodes[m].tasks[i], Taken(s, m, i);
    assert NodeOk(sys, s.nodes[m]) && t in s.nodes[m].tasks;
    TakenWays(sys, s, m, i, n, id);
    BroadcastWays(sys, s1, m, t.event, n);
    var s' := Next(sys, s, Publish(m, i, up));
    assert SameButSent(s1.nodes[n], s'.nodes[n], if m == n then {t.event.id} else {});
    assert HasCause(sys, s', n, id) <==> HasCause(sys, s, n, id);
    assert WaitsForExchange(s'.nodes[n], id) <==> WaitsForExchange(s1.nodes[n], id);
  }

  lemma PublishTaken(sys: System, s: State, m: nat, i: nat, n: nat, id: string)
    requires sys.Few() && Inv(sys, s) && Enabled(sys, s, Publish(m, i, true)) && n < |s.nodes|
    requires RevisionsOk(s, n) && IdOk(sys, s, n, id) && s.nodes[m].tasks[i].ToOutside?
    requires s.nodes[m].tasks[i].event.id !in s.nodes[m].sentOutside.members
    ensures var s' := Next(sys, s, Publish(m, i, true));
            RevisionsOk(s', n) && IdOk(sys, s', n, id)
  {
    var t, s1 := s.nodes[m].tasks[i], Taken(s, m, i);
    assert NodeOk(sys, s.nodes[m]) && t in s.nodes[m].tasks;
    TakenWays(sys, s, m, i, n, id);
    RecordAmongFew(s.nodes[m].sentOutside, t.event.id, sys.verbs.Keys);
    var s' := Next(sys, s, Publish(m, i, true));
    assert HasCause(sys, s', n, id) <==> HasCause(sys, s, n, id);
    assert WaitsForExchange(s'.nodes[n], id) <==> WaitsForExchange(s1.nodes[n], id);
  }

  lemma PublishRefused(sys: System, s: State, m: nat, i: nat, n: nat, id: string)
    requires sys.Few() && Inv(sys, s) && Enabled(sys, s, Publish(m, i, false)) && n < |s.nodes|
    requires RevisionsOk(s, n) && IdOk(sys, s, n, id) && s.nodes[m].tasks[i].ToOutside?
    requires s.nodes[m].tasks[i].event.id !in s.nodes[m].sentOutside.members
    ensures var s' := Next(sys, s, Publish(m, i, false));
            RevisionsOk(s', n) && IdOk(sys, s', n, id)
  {
    var t, s1 := s.nodes[m].tasks[i], Taken(s, m, i);
    assert NodeOk(sys, s.nodes[m]) && t in s.nodes[m].tasks;
    TakenWays(sys, s, m, i, n, id);
    BroadcastWays(sys, Refuse(s1, m, t.event.id), m, t.event, n);
    var s' := Next(sys, s, Publish(m, i, false));
    assert SameButSent(s1.nodes[n], s'.nodes[n], if m == n then {t.event.id} else {});
    assert HasCause(sys, s', n, id) <==> HasCause(sys, s, n, id) || (m == n && t.event.id == id);
    assert WaitsForExchange(s'.nodes[n], id) <==> WaitsForExchange(s1.nodes[n], id);
  }

  /** An id is handed to the outside once, so it is never known there already. */
  lemma NeverKnownOutside(sys: System, s: State, m: nat, i: nat)
    requires m < |s.nodes| && i < |s.nodes[m].tasks| && s.nodes[m].tasks[i].ToOutside?
    requires OutsideOk(sys, s, m, s.nodes[m].tasks[i].event.id)
    ensures s.nodes[m].tasks[i].event.id !in s.nodes[m].sentOutside.members
  {
    OutsideTasksWithout(s.nodes[m].tasks, i, s.nodes[m].tasks[i].event.id);
  }

  lemma StepKeepsId(sys: System, s: State, step: Step, n: nat, id: string)
    requires sys.Few() && Inv(sys, s) && Enabled(sys, s, step) && WaysOk(sys, s) && n < |s.nodes|
    ensures var s' := Next(sys, s, step);
            |s'.nodes| == |s.nodes| && RevisionsOk(s', n) && IdOk(sys, s', n, id)
  {
    assert RevisionsOk(s, n) && IdOk(sys, s, n, id);
    match step
    case Inject(m, k) => InjectKeepsWays(sys, s, m, k, n, id);
    case Deliver(m, i) => DeliverKeepsWays(sys, s, m, i, n, id);
    case Publish(m, i, up) =>
      var t := s.nodes[m].tasks[i];
      if t.ToNodes? {
        PublishToNodes(sys, s, m, i, up, n, id);
      } else {
        assert IdOk(sys, s, m, t.event.id);
        NeverKnownOutside(sys, s, m, i);
        if up {
          PublishTaken(sys, s, m, i, n, id);
        } else {
          PublishRefused(sys, s, m, i, n, id);
        }
      }
  }

  lemma StepKeepsWays(sys: System, s: State, step: Step)
    requires sys.Few() && Inv(sys, s) && Enabled(sys, s, step) && WaysOk(sys, s)
    ensures WaysOk(sys, Next(sys, s, step))
  {
    var s' := Next(sys, s, step);
    forall n, id | 0 <= n < |s'.nodes|
      ensures RevisionsOk(s', n) && IdOk(sys, s', n, id)
    {
      StepKeepsNumber(sys, s, step);
      StepKeepsId(sys, s, step, n, id);
    }
    forall n | 0 <= n < |s'.nodes|
      ensures RevisionsOk(s', n)
    {
      StepKeepsNumber(sys, s, step);
      StepKeepsId(sys, s, step, n, "");
    }
  }

  lemma StepKeepsNumber(sys: System, s: State, step: Step)
    requires Enabled(sys, s, step)
    ensures |Next(sys, s, step).nodes| == |s.nodes|
  {
  }

  lemma {:induction false} RunKeepsWays(sys: System, s: State, steps: seq<Step>)
    requires sys.Few() && Inv(sys, s) && WaysOk(sys, s) && IsRun(sys, s, steps)
    ensures WaysOk(sys, After(sys, s, steps))
    decreases |steps|
  {
    if steps != [] {
      StepKeepsInv(sys, s, steps[0]);
      StepKeepsWays(sys, s, steps[0]);
      RunKeepsWays(sys, Next(sys, s, steps[0]), steps[1..]);
    }
  }

  /**
    When it is quiet, for every injected event and every node: an event for the outside was handed to the
    outside exactly once, which took it or not, and no other event was. The node put the event on the
    exchange if and only if it was injected there, or is a ban of a user who is elsewhere, or the outside
    did not take it.
  */
  lemma QuietMeansPublished(sys: System, steps: seq<Step>, n: nat, id: string)
    requires sys.Few() && IsRun(sys, Start(sys), steps) && n < sys.size
    requires var s := After(sys, Start(sys), steps); Quiet(s) && id in s.injected
    ensures var s := After(sys, Start(sys), steps);
            && id in sys.verbs
            && s.takenOutside[(n, id)] + s.refused[(n, id)] == (if sys.verbs[id].Other? then 1 else 0)
            && (s.broadcasts[(n, id)] == 1
                <==> match sys.verbs[id]
                     case Local => (n, id) in s.injectedAt
                     case Ban => (n, id) in s.injectedAt || (n, id) !in sys.here
                     case Other => (n, id) in s.injectedAt || s.refused[(n, id)] == 1)
  {
    StartInv(sys);
    var s := After(sys, Start(sys), steps);
    RunKeepsInv(sys, Start(sys), steps);
    StartWays(sys);
    RunKeepsWays(sys, Start(sys), steps);
    QuietMeansDelivered(sys, steps, n, id);
    assert IdOk(sys, s, n, id);
    QuietWays(sys, s, n, id);
  }

  lemma QuietWays(sys: System, s: State, n: nat, id: string)
    requires Inv(sys, s) && Quiet(s) && n < |s.nodes| && id in sys.verbs && s.handlings[(n, id)] == 1
    requires CausesOk(sys, s, n, id) && OutsideOk(sys, s, n, id)
    ensures s.takenOutside[(n, id)] + s.refused[(n, id)] == (if sys.verbs[id].Other? then 1 else 0)
    ensures s.broadcasts[(n, id)] == 1 <==> HasCause(sys, s, n, id)
    ensures id in s.nodes[n].handler.handled.members
  {
    assert CountsOk(sys, s);
    assert s.nodes[n].tasks == [];
  }

  lemma StartWays(sys: System)
    ensures WaysOk(sys, Start(sys))
  {
    var s := Start(sys);
    forall n, id | 0 <= n < |s.nodes|
      ensures IdOk(sys, s, n, id) && RevisionsOk(s, n)
    {
      assert s.nodes[n] == IDLE;
    }
  }

  /** In every reachable state a node that passes on an event it did not bring in marks it with a revision. */
  lemma PassedOnIsMarked(sys: System, steps: seq<Step>, n: nat, t: Task)
    requires sys.Few() && IsRun(sys, Start(sys), steps)
    requires n < |After(sys, Start(sys), steps).nodes|
    requires t in After(sys, Start(sys), steps).nodes[n].tasks && t.ToNodes?
    ensures (n, t.event.id) in After(sys, Start(sys), steps).injectedAt || t.event.revision.Some?
  {
    StartInv(sys);
    StartWays(sys);
    RunKeepsWays(sys, Start(sys), steps);
    assert RevisionsOk(After(sys, Start(sys), steps), n);
  }

  // ----- What the records say -----

  /** The events brought in are those of the run's injections. */
  lemma {:induction false} InjectedIff(sys: System, s: State, steps: seq<Step>, n: nat, id: string)
    requires IsRun(sys, s, steps)
    ensures var s' := After(sys, s, steps);
            && ((n, id) in s'.injectedAt <==> (n, id) in s.injectedAt || Inject(n, id) in steps)
            && (id in s'.injected <==> id in s.injected || exists m: nat :: Inject(m, id) in steps)
    decreases |steps|
  {
    if steps != [] {
      var first, rest := steps[0], steps[1..];
      assert steps == [first] + rest;
      assert forall step :: step in steps <==> step == first || step in rest;
      NextRecords(sys, s, first);
      InjectedIff(sys, Next(sys, s, first), rest, n, id);
      assert first.Inject? ==> first == Inject(first.node, first.id);
    }
  }

  /** Only a try that fails is refused, and only one that does not is taken. */
  lemma NextRecords(sys: System, s: State, step: Step)
    requires Enabled(sys, s, step)
    ensures var s' := Next(sys, s, step);
            && s'.injected == (if step.Inject? then s.injected + {step.id} else s.injected)
            && s'.injectedAt == (if step.Inject? then s.injectedAt + {(step.node, step.id)} else s.injectedAt)
            && (s'.refused != s.refused ==> step.Publish? && !step.outsideUp)
            && (s'.takenOutside != s.takenOutside ==> step.Publish? && step.outsideUp)
  {
  }

  /** While the outside is up nothing is refused, and while it is down nothing is taken. */
  lemma {:induction false} OutsideAnswers(sys: System, s: State, steps: seq<Step>, up: bool)
    requires IsRun(sys, s, steps) && forall step :: step in steps && step.Publish? ==> step.outsideUp == up
    ensures var s' := After(sys, s, steps);
            if up then s'.refused == s.refused else s'.takenOutside == s.takenOutside
    decreases |steps|
  {
    if steps != [] {
      var first, rest := steps[0], steps[1..];
      assert first in steps && forall step :: step in rest ==> step in steps;
      NextRecords(sys, s, first);
      OutsideAnswers(sys, Next(sys, s, first), rest, up);
    }
  }
}
