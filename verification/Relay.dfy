/**
  Nodes that share a fanout exchange. Every node has an inbox and publishers of its own; a step
  delivers one message, or lets one publisher thread do its work, or brings in a new event. The
  claims hold for every order of steps.
*/
module Relay {
  import opened Strings
  import opened Windows
  import opened QueueHandling

  /** `here` holds `(n, id)` when the user that event `id` is about is connected to node `n`. */
  datatype System = System(size: nat, verbs: map<string, Verb>, here: set<(nat, string)>) {
    predicate Few() { |verbs.Keys| <= CAPACITY }
  }

  datatype Node = Node(handler: Handler, sent: Window, sentOutside: Window, inbox: seq<Event>, tasks: seq<Task>)

  /** The nodes, and a record of what happened where. */
  datatype State = State(
    nodes: seq<Node>,
    injected: set<string>,
    injectedAt: set<(nat, string)>,
    handlings: multiset<(nat, string)>,
    broadcasts: multiset<(nat, string)>,
    runs: multiset<(nat, string)>,
    bans: multiset<(nat, string)>,
    takenOutside: multiset<(nat, string)>,   // taken by the outside
    refused: multiset<(nat, string)>)   // external sends that failed

  const IDLE := Node(Handler(EMPTY, EMPTY), EMPTY, EMPTY, [], [])

  function Start(sys: System): State {
    State(seq(sys.size, i => IDLE), {}, {}, multiset{}, multiset{}, multiset{}, multiset{}, multiset{}, multiset{})
  }

  datatype Step =
    | Inject(node: nat, id: string)
    | Deliver(node: nat, position: nat)
    | Publish(node: nat, position: nat, outsideUp: bool)

  function Without<T>(s: seq<T>, i: nat): seq<T>
    requires i < |s|
  {
    s[..i] + s[i + 1..]
  }

  /** The exchange puts a copy into every inbox, the sender's own included. */
  function Fanout(nodes: seq<Node>, e: Event): seq<Node> {
    seq(|nodes|, i requires 0 <= i < |nodes| => nodes[i].(inbox := nodes[i].inbox + [e]))
  }

  /** The internal publisher of node `n`: once per id. */
  function Broadcast(s: State, n: nat, e: Event): State
    requires n < |s.nodes|
  {
    var node := s.nodes[n];
    if e.id in node.sent.members then s
    else s.(nodes := Fanout(s.nodes[n := node.(sent := Record(node.sent, e.id).0)], e),
            broadcasts := s.broadcasts + multiset{(n, e.id)})
  }

  /** The tries of an external publisher have failed. */
  function Refuse(s: State, n: nat, id: string): State { s.(refused := s.refused + multiset{(n, id)}) }

  /** The external publisher of node `n`; when its tries fail the event goes to the internal exchange. */
  function SendOutside(s: State, n: nat, e: Event, up: bool): State
    requires n < |s.nodes|
  {
    var node := s.nodes[n];
    if e.id in node.sentOutside.members then s
    else if up then
      s.(nodes := s.nodes[n := node.(sentOutside := Record(node.sentOutside, e.id).0)],
         takenOutside := s.takenOutside + multiset{(n, e.id)})
    else Broadcast(Refuse(s, n, e.id), n, e)
  }

  function AddIf(m: multiset<(nat, string)>, x: (nat, string), b: bool): multiset<(nat, string)> {
    if b then m + multiset{x} else m
  }

  predicate Enabled(sys: System, s: State, step: Step) {
    && step.node < |s.nodes|
    && match step
       case Inject(n, id) => id in sys.verbs
       case Deliver(n, i) => i < |s.nodes[n].inbox| && s.nodes[n].inbox[i].id in sys.verbs
       case Publish(n, i, up) => i < |s.nodes[n].tasks|
  }

  function Next(sys: System, s: State, step: Step): State
    requires Enabled(sys, s, step)
  {
    match step
    case Inject(n, id) =>
      var node := s.nodes[n];
      s.(nodes := s.nodes[n := node.(tasks := node.tasks + [ToNodes(Event(id, None))])],
         injected := s.injected + {id}, injectedAt := s.injectedAt + {(n, id)})
    case Deliver(n, i) =>
      var node := s.nodes[n];
      var e := node.inbox[i];
      var r := React(node.handler, e, sys.verbs[e.id], (n, e.id) in sys.here);
      s.(nodes := s.nodes[n := node.(handler := r.handler, inbox := Without(node.inbox, i),
                                     tasks := node.tasks + r.tasks)],
         handlings := AddIf(s.handlings, (n, e.id), r.took),
         runs := AddIf(s.runs, (n, e.id), r.ran),
         bans := AddIf(s.bans, (n, e.id), r.banned))
    case Publish(n, i, up) =>
      var node := s.nodes[n];
      var s' := s.(nodes := s.nodes[n := node.(tasks := Without(node.tasks, i))]);
      match node.tasks[i]
      case ToNodes(e) => Broadcast(s', n, e)
      case ToOutside(e) => SendOutside(s', n, e, up)
  }

  // ----- Invariant -----

  /** Every node has handled `id` or still has an original copy of it coming. */
  ghost predicate Spread(s: State, id: string) {
    forall n :: 0 <= n < |s.nodes| ==>
      id in s.nodes[n].handler.handled.members || Event(id, None) in s.nodes[n].inbox
  }

  ghost predicate WindowsOk(sys: System, node: Node) {
    && Exact(node.handler.handled) && node.handler.handled.members <= sys.verbs.Keys
    && Exact(node.handler.delegated) && node.handler.delegated.members <= node.handler.handled.members
    && Exact(node.sent) && node.sent.members <= sys.verbs.Keys
    && Exact(node.sentOutside) && node.sentOutside.members <= sys.verbs.Keys
  }

  ghost predicate MailOk(sys: System, node: Node) {
    && (forall e :: e in node.inbox ==> e.id in sys.verbs)
    && (forall t :: t in node.tasks ==> t.event.id in sys.verbs)
    // only an original that was not taken up yet may wait to be published by a node that has not handled it
    && (forall t :: t in node.tasks ==>
          t.event.id in node.handler.handled.members || t == ToNodes(Event(t.event.id, None)))
  }

  ghost predicate SpreadOk(s: State, node: Node) {
    && (forall id :: id in node.handler.handled.members ==> Spread(s, id))
    && (forall id :: id in node.sent.members ==> Spread(s, id))
    && (forall e :: e in node.inbox ==> Spread(s, e.id))
  }

  ghost predicate CountsOk(sys: System, s: State) {
    forall n, id :: 0 <= n < |s.nodes| ==>
      var handled := id in s.nodes[n].handler.handled.members;
      && s.handlings[(n, id)] == (if handled then 1 else 0)
      && s.broadcasts[(n, id)] == (if id in s.nodes[n].sent.members then 1 else 0)
      && s.runs[(n, id)] == (if handled && RunsOn(sys, n, id) then 1 else 0)
      && s.bans[(n, id)] == (if handled && id in sys.verbs && sys.verbs[id].Ban? then 1 else 0)
  }

  /** Where the local part of an event belongs: a ban where the user is, the other local verbs anywhere. */
  predicate RunsOn(sys: System, n: nat, id: string) {
    id in sys.verbs && (sys.verbs[id].Local? || (sys.verbs[id].Ban? && (n, id) in sys.here))
  }

  /** An injected event has been spread, or still waits to be published. */
  ghost predicate PendingOrSpread(s: State, id: string) {
    Spread(s, id) || exists n :: 0 <= n < |s.nodes| && ToNodes(Event(id, None)) in s.nodes[n].tasks
  }

  /** The invariant, with one injected id set aside. */
  ghost predicate InvBut(sys: System, s: State, aside: set<string>) {
    && |s.nodes| == sys.size
    && (forall n :: 0 <= n < |s.nodes| ==>
          WindowsOk(sys, s.nodes[n]) && MailOk(sys, s.nodes[n]) && SpreadOk(s, s.nodes[n]))
    && CountsOk(sys, s)
    && (forall id :: id in s.injected - aside ==> PendingOrSpread(s, id))
  }

  ghost predicate Inv(sys: System, s: State) { InvBut(sys, s, {}) }

  lemma StartInv(sys: System)
    ensures Inv(sys, Start(sys)) && AllForwarded(sys, Start(sys))
  {
  }

  // ----- Steps keep the invariant -----

  /** Nothing that was handled or coming is lost. */
  ghost predicate KeepsMail(s: State, s': State) {
    && |s.nodes| == |s'.nodes|
    && forall n, id :: 0 <= n < |s.nodes| ==>
         (id in s.nodes[n].handler.handled.members || Event(id, None) in s.nodes[n].inbox) ==>
         (id in s'.nodes[n].handler.handled.members || Event(id, None) in s'.nodes[n].inbox)
  }

  lemma SpreadStays(s: State, s': State, id: string)
    requires KeepsMail(s, s') && Spread(s, id)
    ensures Spread(s', id)
  {
  }

  /** Taking up an event, or leaving it: what changes in the windows and what is passed on. */
  lemma ReactionOk(sys: System, node: Node, n: nat, e: Event)
    requires sys.Few() && WindowsOk(sys, node) && e.id in sys.verbs
    ensures var h := node.handler;
            var r := React(h, e, sys.verbs[e.id], (n, e.id) in sys.here);
            var taken := e.revision.None? && e.id !in h.handled.members;
            && r.handler.handled.members == h.handled.members + (if taken then {e.id} else {})
            && r.took == taken
            && r.ran == (taken && RunsOn(sys, n, e.id))
            && r.banned == (taken && sys.verbs[e.id].Ban?)
            && |r.tasks| <= (if taken then 1 else 0)
            && (forall t :: t in r.tasks ==> t.event.id == e.id)
            && WindowsOk(sys, node.(handler := r.handler))
  {
    var h := node.handler;
    if e.revision.None? && e.id !in h.handled.members {
      RecordAmongFew(h.handled, e.id, sys.verbs.Keys);
      RecordAmongFew(h.delegated, e.id, sys.verbs.Keys);
    }
  }

  lemma WithoutHas<T>(s: seq<T>, i: nat)
    requires i < |s|
    ensures forall x :: x in Without(s, i) ==> x in s
    ensures forall x :: x in s && x != s[i] ==> x in Without(s, i)
  {
    forall x | x in s && x != s[i]
      ensures x in Without(s, i)
    {
      var k :| 0 <= k < |s| && s[k] == x;
      assert Without(s, i)[if k < i then k else k - 1] == x;
    }
  }

  lemma DeliverKeepsMail(sys: System, s: State, n: nat, i: nat)
    requires sys.Few() && Inv(sys, s) && Enabled(sys, s, Deliver(n, i))
    ensures KeepsMail(s, Next(sys, s, Deliver(n, i)))
  {
    ReactionOk(sys, s.nodes[n], n, s.nodes[n].inbox[i]);
    WithoutHas(s.nodes[n].inbox, i);
  }

  /** What one node may gain, only under ids in `gained`, and which waiting originals it may lose. */
  ghost predicate NodeEvolves(a: Node, b: Node, gained: set<string>, lost: set<string>) {
    && b.handler.handled.members <= a.handler.handled.members + gained
    && b.sent.members <= a.sent.members + gained
    && (forall e :: e in b.inbox ==> e in a.inbox || e.id in gained)
    && (forall k :: k !in lost && ToNodes(Event(k, None)) in a.tasks ==> ToNodes(Event(k, None)) in b.tasks)
  }

  ghost predicate NodeOk(sys: System, node: Node) { WindowsOk(sys, node) && MailOk(sys, node) }

  /** A change that gains nothing unspread and loses no mail keeps the invariant. */
  lemma Evolution(sys: System, s: State, s': State, gained: set<string>, lost: set<string>,
                  aside: set<string>, aside': set<string>)
    requires InvBut(sys, s, aside) && KeepsMail(s, s')
    requires forall k :: k in gained ==> Spread(s', k)
    requires forall m :: 0 <= m < |s.nodes| ==>
               NodeEvolves(s.nodes[m], s'.nodes[m], gained, lost) && NodeOk(sys, s'.nodes[m])
    requires CountsOk(sys, s')
    requires forall k :: k in s'.injected - aside' ==> k in s.injected - aside - lost || PendingOrSpread(s', k)
    ensures InvBut(sys, s', aside')
  {
    forall k | Spread(s, k)
      ensures Spread(s', k)
    {
      SpreadStays(s, s', k);
    }
    forall m | 0 <= m < |s'.nodes|
      ensures SpreadOk(s', s'.nodes[m])
    {
      assert SpreadOk(s, s.nodes[m]) && NodeEvolves(s.nodes[m], s'.nodes[m], gained, lost);
    }
    forall k | k in s'.injected - aside'
      ensures PendingOrSpread(s', k)
    {
    }
    forall m | 0 <= m < |s'.nodes|
      ensures WindowsOk(sys, s'.nodes[m]) && MailOk(sys, s'.nodes[m])
    {
      assert NodeOk(sys, s'.nodes[m]);
    }
  }

  lemma DeliverCounts(sys: System, s: State, n: nat, i: nat)
    requires sys.Few() && Inv(sys, s) && Enabled(sys, s, Deliver(n, i))
    ensures CountsOk(sys, Next(sys, s, Deliver(n, i)))
  {
    ReactionOk(sys, s.nodes[n], n, s.nodes[n].inbox[i]);
  }

  lemma DeliverNode(sys: System, s: State, n: nat, i: nat)
    requires sys.Few() && Inv(sys, s) && Enabled(sys, s, Deliver(n, i))
    ensures var node' := Next(sys, s, Deliver(n, i)).nodes[n];
            NodeEvolves(s.nodes[n], node', {s.nodes[n].inbox[i].id}, {}) && NodeOk(sys, node')
  {
    var node := s.nodes[n];
    ReactionOk(sys, node, n, node.inbox[i]);
    WithoutHas(node.inbox, i);
  }

  lemma DeliverKeepsInv(sys: System, s: State, n: nat, i: nat)
    requires sys.Few() && Inv(sys, s) && Enabled(sys, s, Deliver(n, i))
    ensures Inv(sys, Next(sys, s, Deliver(n, i)))
  {
    var s', e := Next(sys, s, Deliver(n, i)), s.nodes[n].inbox[i];
    DeliverKeepsMail(sys, s, n, i);
    DeliverNode(sys, s, n, i);
    DeliverCounts(sys, s, n, i);
    assert SpreadOk(s, s.nodes[n]);
    SpreadStays(s, s', e.id);
    Evolution(sys, s, s', {e.id}, {}, {}, {});
  }

  lemma InjectKeepsInv(sys: System, s: State, n: nat, id: string)
    requires Inv(sys, s) && Enabled(sys, s, Inject(n, id))
    ensures Inv(sys, Next(sys, s, Inject(n, id)))
  {
    var s' := Next(sys, s, Inject(n, id));
    assert NodeOk(sys, s.nodes[n]);
    assert ToNodes(Event(id, None)) in s'.nodes[n].tasks;
    assert PendingOrSpread(s', id);
    Evolution(sys, s, s', {}, {}, {}, {});
  }

  /** A publisher thread starts: its task leaves the node. */
  function Taken(s: State, n: nat, i: nat): State
    requires n < |s.nodes| && i < |s.nodes[n].tasks|
  {
    s.(nodes := s.nodes[n := s.nodes[n].(tasks := Without(s.nodes[n].tasks, i))])
  }

  lemma TakenKeeps(sys: System, s: State, n: nat, i: nat)
    requires Inv(sys, s) && n < |s.nodes| && i < |s.nodes[n].tasks|
    ensures InvBut(sys, Taken(s, n, i), {s.nodes[n].tasks[i].event.id})
  {
    var s', id := Taken(s, n, i), s.nodes[n].tasks[i].event.id;
    WithoutHas(s.nodes[n].tasks, i);
    assert NodeOk(sys, s.nodes[n]);
    Evolution(sys, s, s', {}, {id}, {}, {id});
  }

  lemma BroadcastSpreads(sys: System, s: State, n: nat, e: Event)
    requires InvBut(sys, s, {e.id}) && n < |s.nodes| && e.id in sys.verbs
    requires e.revision.None? || e.id in s.nodes[n].handler.handled.members
    ensures KeepsMail(s, Broadcast(s, n, e)) && Spread(Broadcast(s, n, e), e.id)
  {
    var s' := Broadcast(s, n, e);
    assert SpreadOk(s, s.nodes[n]);
    assert KeepsMail(s, s');
    if Spread(s, e.id) {
      SpreadStays(s, s', e.id);
    }
  }

  lemma BroadcastNodes(sys: System, s: State, n: nat, e: Event, m: nat)
    requires sys.Few() && InvBut(sys, s, {e.id}) && n < |s.nodes| && m < |s.nodes| && e.id in sys.verbs
    ensures NodeEvolves(s.nodes[m], Broadcast(s, n, e).nodes[m], {e.id}, {})
    ensures NodeOk(sys, Broadcast(s, n, e).nodes[m])
    ensures CountsOk(sys, Broadcast(s, n, e))
  {
    assert NodeOk(sys, s.nodes[n]) && NodeOk(sys, s.nodes[m]);
    if e.id !in s.nodes[n].sent.members {
      RecordAmongFew(s.nodes[n].sent, e.id, sys.verbs.Keys);
    }
  }

  lemma BroadcastKeepsInv(sys: System, s: State, n: nat, e: Event)
    requires sys.Few() && InvBut(sys, s, {e.id}) && n < |s.nodes| && e.id in sys.verbs
    requires e.revision.None? || e.id in s.nodes[n].handler.handled.members
    ensures Inv(sys, Broadcast(s, n, e))
  {
    BroadcastSpreads(sys, s, n, e);
    BroadcastNodes(sys, s, n, e, n);
    forall m | 0 <= m < |s.nodes|
      ensures NodeEvolves(s.nodes[m], Broadcast(s, n, e).nodes[m], {e.id}, {})
      ensures NodeOk(sys, Broadcast(s, n, e).nodes[m])
    {
      BroadcastNodes(sys, s, n, e, m);
    }
    Evolution(sys, s, Broadcast(s, n, e), {e.id}, {}, {e.id}, {});
  }

  /** When the outside takes the event, only the window of the external publisher changes. */
  lemma OutsideTaken(sys: System, s: State, n: nat, e: Event)
    requires sys.Few() && InvBut(sys, s, {e.id}) && n < |s.nodes| && e.id in sys.verbs
    ensures var s' := SendOutside(s, n, e, true);
            && KeepsMail(s, s') && NodeOk(sys, s'.nodes[n]) && CountsOk(sys, s')
            && NodeEvolves(s.nodes[n], s'.nodes[n], {}, {})
  {
    assert NodeOk(sys, s.nodes[n]);
    if e.id !in s.nodes[n].sentOutside.members {
      RecordAmongFew(s.nodes[n].sentOutside, e.id, sys.verbs.Keys);
    }
  }

  lemma RefuseKeepsInv(sys: System, s: State, n: nat, id: string)
    requires InvBut(sys, s, {id})
    ensures InvBut(sys, Refuse(s, n, id), {id})
  {
    var s' := Refuse(s, n, id);
    assert forall k :: Spread(s, k) ==> Spread(s', k);
    assert forall k :: PendingOrSpread(s, k) ==> PendingOrSpread(s', k);
    forall m | 0 <= m < |s'.nodes|
      ensures SpreadOk(s', s'.nodes[m])
    {
      assert SpreadOk(s, s.nodes[m]);
    }
  }

  lemma OutsideKeepsInv(sys: System, s: State, n: nat, e: Event, up: bool)
    requires sys.Few() && InvBut(sys, s, {e.id}) && n < |s.nodes| && e.id in sys.verbs
    requires e.id in s.nodes[n].handler.handled.members
    ensures Inv(sys, SendOutside(s, n, e, up))
  {
    if !up && e.id !in s.nodes[n].sentOutside.members {
      RefuseKeepsInv(sys, s, n, e.id);
      BroadcastKeepsInv(sys, Refuse(s, n, e.id), n, e);
    } else {
      var s' := SendOutside(s, n, e, true);
      OutsideTaken(sys, s, n, e);
      assert SpreadOk(s, s.nodes[n]);
      SpreadStays(s, s', e.id);
      forall m | 0 <= m < |s.nodes|
        ensures NodeEvolves(s.nodes[m], s'.nodes[m], {}, {}) && NodeOk(sys, s'.nodes[m])
      {
        assert NodeOk(sys, s.nodes[m]);
      }
      Evolution(sys, s, s', {}, {}, {e.id}, {});
    }
  }

  lemma StepKeepsInv(sys: System, s: State, step: Step)
    requires sys.Few() && Inv(sys, s) && Enabled(sys, s, step)
    ensures Inv(sys, Next(sys, s, step))
  {
    match step
    case Inject(n, id) => InjectKeepsInv(sys, s, n, id);
    case Deliver(n, i) => DeliverKeepsInv(sys, s, n, i);
    case Publish(n, i, up) =>
      var t := s.nodes[n].tasks[i];
      assert NodeOk(sys, s.nodes[n]);
      assert t in s.nodes[n].tasks;
      TakenKeeps(sys, s, n, i);
      if t.ToNodes? {
        BroadcastKeepsInv(sys, Taken(s, n, i), n, t.event);
      } else {
        OutsideKeepsInv(sys, Taken(s, n, i), n, t.event, up);
      }
  }

  // ----- Nothing taken up is forgotten -----

  /** A task of the node that will deal with `id`, on the exchange or, for other events, outside. */
  predicate Deals(t: Task, id: string, verb: Verb) { t.event.id == id && (t.ToNodes? || verb.Other?) }

  predicate Waiting(node: Node, id: string, verb: Verb) { exists t :: t in node.tasks && Deals(t, id, verb) }

  /**
    An id that was handled is done with, or waits: a ban whose user is elsewhere was passed on, and
    an event for the outside went there or back onto the exchange.
  */
  predicate Forwarded(sys: System, n: nat, node: Node, id: string) {
    id in node.handler.handled.members && id in sys.verbs ==>
      match sys.verbs[id]
      case Local => true
      case Ban => (n, id) in sys.here || id in node.sent.members || Waiting(node, id, Ban)
      case Other => id in node.sentOutside.members || id in node.sent.members || Waiting(node, id, Other)
  }

  ghost predicate AllForwarded(sys: System, s: State) {
    forall n, id :: 0 <= n < |s.nodes| ==> Forwarded(sys, n, s.nodes[n], id)
  }

  lemma DeliverForwards(sys: System, s: State, n: nat, i: nat, id: string)
    requires sys.Few() && Inv(sys, s) && Enabled(sys, s, Deliver(n, i)) && Forwarded(sys, n, s.nodes[n], id)
    ensures Forwarded(sys, n, Next(sys, s, Deliver(n, i)).nodes[n], id)
  {
    var node, e := s.nodes[n], s.nodes[n].inbox[i];
    var node' := Next(sys, s, Deliver(n, i)).nodes[n];
    assert NodeOk(sys, node);
    ReactionOk(sys, node, n, e);
    var r := React(node.handler, e, sys.verbs[e.id], (n, e.id) in sys.here);
    forall verb | Waiting(node, id, verb)
      ensures Waiting(node', id, verb)
    {
      var t :| t in node.tasks && Deals(t, id, verb);
      assert t in node'.tasks;
    }
    if r.took && id == e.id && r.tasks != [] {
      assert r.tasks[0] in node'.tasks && Deals(r.tasks[0], id, sys.verbs[id]);
    }
  }

  /** A task leaves its id in the window of the exchange, or one for the outside perhaps in the other. */
  lemma PublishForwards(sys: System, s: State, n: nat, i: nat, up: bool, m: nat, id: string)
    requires sys.Few() && Inv(sys, s) && Enabled(sys, s, Publish(n, i, up)) && m < |s.nodes|
    requires Forwarded(sys, m, s.nodes[m], id)
    ensures Forwarded(sys, m, Next(sys, s, Publish(n, i, up)).nodes[m], id)
  {
    var node, t := s.nodes[n], s.nodes[n].tasks[i];
    var node' := Next(sys, s, Publish(n, i, up)).nodes[m];
    assert NodeOk(sys, node) && t in node.tasks;
    if t.event.id !in node.sent.members {
      RecordAmongFew(node.sent, t.event.id, sys.verbs.Keys);
    }
    if t.event.id !in node.sentOutside.members {
      RecordAmongFew(node.sentOutside, t.event.id, sys.verbs.Keys);
    }
    assert node'.handler == s.nodes[m].handler;
    assert s.nodes[m].sent.members <= node'.sent.members && s.nodes[m].sentOutside.members <= node'.sentOutside.members;
    WithoutHas(node.tasks, i);
    forall verb | Waiting(s.nodes[m], id, verb)
      ensures Waiting(node', id, verb) || id in node'.sent.members || (verb.Other? && id in node'.sentOutside.members)
    {
      var w :| w in s.nodes[m].tasks && Deals(w, id, verb);
      assert w in node'.tasks || (m == n && w == t);
    }
  }

  lemma StepForwards(sys: System, s: State, step: Step)
    requires sys.Few() && Inv(sys, s) && AllForwarded(sys, s) && Enabled(sys, s, step)
    ensures AllForwarded(sys, Next(sys, s, step))
  {
    var s' := Next(sys, s, step);
    forall m, id | 0 <= m < |s'.nodes|
      ensures Forwarded(sys, m, s'.nodes[m], id)
    {
      assert Forwarded(sys, m, s.nodes[m], id);
      match step
      case Inject(n, k) =>
        forall verb | Waiting(s.nodes[m], id, verb)
          ensures Waiting(s'.nodes[m], id, verb)
        {
          var w :| w in s.nodes[m].tasks && Deals(w, id, verb);
          assert w in s'.nodes[m].tasks;
        }
      case Deliver(n, i) =>
        if m == n {
          DeliverForwards(sys, s, n, i, id);
        }
      case Publish(n, i, up) => PublishForwards(sys, s, n, i, up, m, id);
    }
  }

  // ----- Runs -----

  ghost predicate IsRun(sys: System, s: State, steps: seq<Step>)
    decreases |steps|
  {
    steps != [] ==> Enabled(sys, s, steps[0]) && IsRun(sys, Next(sys, s, steps[0]), steps[1..])
  }

  function After(sys: System, s: State, steps: seq<Step>): State
    requires IsRun(sys, s, steps)
    decreases |steps|
  {
    if steps == [] then s else After(sys, Next(sys, s, steps[0]), steps[1..])
  }

  lemma {:induction false} RunKeepsInv(sys: System, s: State, steps: seq<Step>)
    requires sys.Few() && Inv(sys, s) && AllForwarded(sys, s) && IsRun(sys, s, steps)
    ensures Inv(sys, After(sys, s, steps)) && AllForwarded(sys, After(sys, s, steps))
    decreases |steps|
  {
    if steps != [] {
      StepKeepsInv(sys, s, steps[0]);
      StepForwards(sys, s, steps[0]);
      RunKeepsInv(sys, Next(sys, s, steps[0]), steps[1..]);
    }
  }

  /**
    Whatever the order of steps, and however often an id is injected: each node handles it at most
    once, puts it on the exchange at most once (a bounce of a failed external send included), and
    runs its local part at most once, and only where that part belongs.
  */
  lemma AtMostOnce(sys: System, steps: seq<Step>, n: nat, id: string)
    requires sys.Few() && IsRun(sys, Start(sys), steps) && n < sys.size
    ensures var s := After(sys, Start(sys), steps);
            && s.handlings[(n, id)] <= 1
            && s.broadcasts[(n, id)] <= 1
            && s.runs[(n, id)] == (if RunsOn(sys, n, id) then s.handlings[(n, id)] else 0)
            && s.bans[(n, id)] <= s.handlings[(n, id)]
  {
    StartInv(sys);
    RunKeepsInv(sys, Start(sys), steps);
  }

  /** A copy that carries a revision is only taken out of the inbox. */
  lemma PassedOnCopyHasNoEffect(sys: System, s: State, n: nat, i: nat)
    requires Enabled(sys, s, Deliver(n, i)) && s.nodes[n].inbox[i].revision.Some?
    ensures Next(sys, s, Deliver(n, i))
            == s.(nodes := s.nodes[n := s.nodes[n].(inbox := Without(s.nodes[n].inbox, i))])
  {
    var node, e := s.nodes[n], s.nodes[n].inbox[i];
    assert React(node.handler, e, sys.verbs[e.id], (n, e.id) in sys.here) == Ignoring(node.handler);
    assert node.tasks + [] == node.tasks;
  }

  // ----- However many ids there are -----

  /** What node `n` takes up in a step. */
  function HandledBy(sys: System, s: State, step: Step, n: nat): seq<string>
    requires Enabled(sys, s, step)
  {
    if !step.Deliver? || step.node != n then []
    else
      var e := s.nodes[n].inbox[step.position];
      if React(s.nodes[n].handler, e, sys.verbs[e.id], (n, e.id) in sys.here).took then [e.id] else []
  }

  /** What node `n` puts on the exchange in a step, bounces included. */
  function SentBy(sys: System, s: State, step: Step, n: nat): seq<string>
    requires Enabled(sys, s, step)
  {
    if !step.Publish? || step.node != n then []
    else
      var node, t := s.nodes[n], s.nodes[n].tasks[step.position];
      var bounced := t.ToOutside? && !step.outsideUp && t.event.id !in node.sentOutside.members;
      if (t.ToNodes? || bounced) && t.event.id !in node.sent.members then [t.event.id] else []
  }

  /** The ids that node `n` takes up along a run, in order. */
  ghost function HandledAlong(sys: System, s: State, steps: seq<Step>, n: nat): seq<string>
    requires IsRun(sys, s, steps)
    decreases |steps|
  {
    if steps == [] then []
    else HandledBy(sys, s, steps[0], n) + HandledAlong(sys, Next(sys, s, steps[0]), steps[1..], n)
  }

  ghost function SentAlong(sys: System, s: State, steps: seq<Step>, n: nat): seq<string>
    requires IsRun(sys, s, steps)
    decreases |steps|
  {
    if steps == [] then []
    else SentBy(sys, s, steps[0], n) + SentAlong(sys, Next(sys, s, steps[0]), steps[1..], n)
  }

  lemma StepTracks(sys: System, s: State, step: Step, n: nat, handled: seq<string>, sent: seq<string>)
    requires Enabled(sys, s, step) && n < |s.nodes|
    requires Tracks(s.nodes[n].handler.handled, handled) && Tracks(s.nodes[n].sent, sent)
    ensures var s' := Next(sys, s, step);
            && |s'.nodes| == |s.nodes|
            && Tracks(s'.nodes[n].handler.handled, handled + HandledBy(sys, s, step, n))
            && Tracks(s'.nodes[n].sent, sent + SentBy(sys, s, step, n))
  {
    StepWindows(sys, s, step, n);
    WindowTracks(s.nodes[n].handler.handled, handled, HandledBy(sys, s, step, n));
    WindowTracks(s.nodes[n].sent, sent, SentBy(sys, s, step, n));
  }

  /** A window that records what is not in it, or nothing. */
  function Recorded(w: Window, added: seq<string>): Window { if added == [] then w else Record(w, added[0]).0 }

  ghost predicate AddsNew(w: Window, added: seq<string>) {
    |added| <= 1 && (added != [] ==> added[0] !in w.members)
  }

  lemma WindowTracks(w: Window, history: seq<string>, added: seq<string>)
    requires Tracks(w, history) && AddsNew(w, added)
    ensures Tracks(Recorded(w, added), history + added)
  {
    if added == [] {
      assert history + added == history;
    } else {
      RecordTracks(w, history, added[0]);
      assert added == [added[0]];
    }
  }

  lemma StepWindows(sys: System, s: State, step: Step, n: nat)
    requires Enabled(sys, s, step) && n < |s.nodes|
    ensures var s', node := Next(sys, s, step), s.nodes[n];
            && |s'.nodes| == |s.nodes|
            && AddsNew(node.handler.handled, HandledBy(sys, s, step, n))
            && s'.nodes[n].handler.handled == Recorded(node.handler.handled, HandledBy(sys, s, step, n))
            && AddsNew(node.sent, SentBy(sys, s, step, n))
            && s'.nodes[n].sent == Recorded(node.sent, SentBy(sys, s, step, n))
  {
    match step
    case Inject(m, id) =>
    case Deliver(m, i) => DeliverWindows(sys, s, m, i, n);
    case Publish(m, i, up) => PublishWindows(sys, s, m, i, up, n);
  }

  lemma DeliverWindows(sys: System, s: State, m: nat, i: nat, n: nat)
    requires Enabled(sys, s, Deliver(m, i)) && n < |s.nodes|
    ensures var s', took := Next(sys, s, Deliver(m, i)), HandledBy(sys, s, Deliver(m, i), n);
            && |s'.nodes| == |s.nodes| && s'.nodes[n].sent == s.nodes[n].sent
            && AddsNew(s.nodes[n].handler.handled, took)
            && s'.nodes[n].handler.handled == Recorded(s.nodes[n].handler.handled, took)
  {
    var e := s.nodes[m].inbox[i];
    ReactRecords(s.nodes[m].handler, e, sys.verbs[e.id], (m, e.id) in sys.here);
  }

  lemma ReactRecords(h: Handler, e: Event, verb: Verb, here: bool)
    ensures var r := React(h, e, verb, here);
            && (r.took ==> e.id !in h.handled.members)
            && r.handler.handled == if r.took then Record(h.handled, e.id).0 else h.handled
  {
  }

  lemma PublishWindows(sys: System, s: State, m: nat, i: nat, up: bool, n: nat)
    requires Enabled(sys, s, Publish(m, i, up)) && n < |s.nodes|
    ensures var s', put := Next(sys, s, Publish(m, i, up)), SentBy(sys, s, Publish(m, i, up), n);
            && |s'.nodes| == |s.nodes| && s'.nodes[n].handler == s.nodes[n].handler
            && AddsNew(s.nodes[n].sent, put) && s'.nodes[n].sent == Recorded(s.nodes[n].sent, put)
  {
    var t, s1 := s.nodes[m].tasks[i], Taken(s, m, i);
    if t.ToNodes? {
      BroadcastWindow(s1, m, t.event, n);
    } else if t.event.id !in s.nodes[m].sentOutside.members && !up {
      BroadcastWindow(Refuse(s1, m, t.event.id), m, t.event, n);
    }
  }

  lemma BroadcastWindow(s: State, m: nat, e: Event, n: nat)
    requires m < |s.nodes| && n < |s.nodes|
    ensures var s' := Broadcast(s, m, e);
            && |s'.nodes| == |s.nodes| && s'.nodes[n].handler == s.nodes[n].handler
            && s'.nodes[n].sent == if m == n && e.id !in s.nodes[n].sent.members then Record(s.nodes[n].sent, e.id).0
                                   else s.nodes[n].sent
  {
  }

  lemma StepCounts(sys: System, s: State, step: Step, n: nat, id: string)
    requires Enabled(sys, s, step)
    ensures var s' := Next(sys, s, step);
            && s'.handlings[(n, id)] == s.handlings[(n, id)] + multiset(HandledBy(sys, s, step, n))[id]
            && s'.broadcasts[(n, id)] == s.broadcasts[(n, id)] + multiset(SentBy(sys, s, step, n))[id]
  {
    if step.Publish? {
      PublishCounts(sys, s, step.node, step.position, step.outsideUp, n, id);
    }
  }

  lemma PublishCounts(sys: System, s: State, m: nat, i: nat, up: bool, n: nat, id: string)
    requires Enabled(sys, s, Publish(m, i, up))
    ensures var s', put := Next(sys, s, Publish(m, i, up)), SentBy(sys, s, Publish(m, i, up), n);
            && s'.handlings == s.handlings
            && s'.broadcasts[(n, id)] == s.broadcasts[(n, id)] + multiset(put)[id]
  {
    var t := s.nodes[m].tasks[i];
    assert multiset([t.event.id]) == multiset{t.event.id};
  }

  lemma {:induction false} RunTracks(sys: System, s: State, steps: seq<Step>, n: nat, handled: seq<string>,
                                     sent: seq<string>)
    requires IsRun(sys, s, steps) && n < |s.nodes|
    requires Tracks(s.nodes[n].handler.handled, handled) && Tracks(s.nodes[n].sent, sent)
    ensures var s' := After(sys, s, steps);
            && |s'.nodes| == |s.nodes|
            && Tracks(s'.nodes[n].handler.handled, handled + HandledAlong(sys, s, steps, n))
            && Tracks(s'.nodes[n].sent, sent + SentAlong(sys, s, steps, n))
    decreases |steps|
  {
    if steps == [] {
      assert handled + [] == handled && sent + [] == sent;
    } else {
      var s' := Next(sys, s, steps[0]);
      var took, put := HandledBy(sys, s, steps[0], n), SentBy(sys, s, steps[0], n);
      StepTracks(sys, s, steps[0], n, handled, sent);
      RunTracks(sys, s', steps[1..], n, handled + took, sent + put);
      Associate(handled, took, HandledAlong(sys, s', steps[1..], n));
      Associate(sent, put, SentAlong(sys, s', steps[1..], n));
    }
  }

  lemma {:induction false} RunCounts(sys: System, s: State, steps: seq<Step>, n: nat, id: string)
    requires IsRun(sys, s, steps)
    ensures var s' := After(sys, s, steps);
            && s'.handlings[(n, id)] == s.handlings[(n, id)] + multiset(HandledAlong(sys, s, steps, n))[id]
            && s'.broadcasts[(n, id)] == s.broadcasts[(n, id)] + multiset(SentAlong(sys, s, steps, n))[id]
    decreases |steps|
  {
    if steps != [] {
      StepCounts(sys, s, steps[0], n, id);
      RunCounts(sys, Next(sys, s, steps[0]), steps[1..], n, id);
    }
  }

  /**
    With any number of ids: between two handlings of one id on a node there are at least a hundred
    handlings of other ids, and between two broadcasts of it a hundred other broadcasts.
  */
  lemma RepeatsAreFarApart(sys: System, steps: seq<Step>, n: nat, id: string)
    requires IsRun(sys, Start(sys), steps) && n < sys.size
    ensures var handled, sent := HandledAlong(sys, Start(sys), steps, n), SentAlong(sys, Start(sys), steps, n);
            && Spaced(handled) && After(sys, Start(sys), steps).handlings[(n, id)] == multiset(handled)[id]
            && Spaced(sent) && After(sys, Start(sys), steps).broadcasts[(n, id)] == multiset(sent)[id]
  {
    TracksFromStart(sys, steps, n);
    RunCounts(sys, Start(sys), steps, n, id);
  }

  lemma TracksFromStart(sys: System, steps: seq<Step>, n: nat)
    requires IsRun(sys, Start(sys), steps) && n < sys.size
    ensures Spaced(HandledAlong(sys, Start(sys), steps, n)) && Spaced(SentAlong(sys, Start(sys), steps, n))
  {
    NothingTracked();
    assert Start(sys).nodes[n] == IDLE;
    RunTracks(sys, Start(sys), steps, n, [], []);
    NothingBefore(HandledAlong(sys, Start(sys), steps, n));
    NothingBefore(SentAlong(sys, Start(sys), steps, n));
  }

  lemma NothingTracked()
    ensures Tracks(EMPTY, [])
  {
  }

  lemma NothingBefore(a: seq<string>)
    ensures [] + a == a
  {
  }

  // ----- Runs end -----

  /** Messages and tasks at a node, what it may still handle, and the copies it may still cause. */
  function Weight(sys: System, node: Node): int {
    |node.inbox| + |node.tasks| + (|sys.verbs.Keys| - |node.handler.handled.members|)
    + sys.size * (|sys.verbs.Keys| - |node.sent.members|)
  }

  function Total(sys: System, nodes: seq<Node>): int {
    if nodes == [] then 0 else Weight(sys, nodes[0]) + Total(sys, nodes[1..])
  }

  lemma {:induction false} TotalUpdate(sys: System, nodes: seq<Node>, n: nat, node: Node)
    requires n < |nodes|
    ensures Total(sys, nodes[n := node]) == Total(sys, nodes) - Weight(sys, nodes[n]) + Weight(sys, node)
  {
    if n == 0 {
      assert nodes[n := node][1..] == nodes[1..];
    } else {
      TotalUpdate(sys, nodes[1..], n - 1, node);
      assert nodes[n := node][1..] == nodes[1..][n - 1 := node];
    }
  }

  lemma {:induction false} TotalFanout(sys: System, nodes: seq<Node>, e: Event)
    ensures Total(sys, Fanout(nodes, e)) == Total(sys, nodes) + |nodes|
  {
    if nodes != [] {
      TotalFanout(sys, nodes[1..], e);
      assert Fanout(nodes, e)[1..] == Fanout(nodes[1..], e);
    }
  }

  lemma ProductNotNegative(a: nat, b: nat)
    ensures a * b >= 0
  {
  }

  lemma WeightNotNegative(sys: System, node: Node)
    requires WindowsOk(sys, node)
    ensures Weight(sys, node) >= 0
  {
    SubsetCount(node.handler.handled.members, sys.verbs.Keys);
    SubsetCount(node.sent.members, sys.verbs.Keys);
    ProductNotNegative(sys.size, |sys.verbs.Keys| - |node.sent.members|);
  }

  lemma {:induction false} TotalNotNegative(sys: System, nodes: seq<Node>)
    requires forall n :: 0 <= n < |nodes| ==> WindowsOk(sys, nodes[n])
    ensures Total(sys, nodes) >= 0
  {
    if nodes != [] {
      WeightNotNegative(sys, nodes[0]);
      TotalNotNegative(sys, nodes[1..]);
    }
  }

  lemma BroadcastTotal(sys: System, s: State, n: nat, e: Event)
    requires sys.Few() && |s.nodes| == sys.size && n < |s.nodes| && WindowsOk(sys, s.nodes[n]) && e.id in sys.verbs
    ensures Total(sys, Broadcast(s, n, e).nodes) == Total(sys, s.nodes)
  {
    var node := s.nodes[n];
    if e.id !in node.sent.members {
      RecordAmongFew(node.sent, e.id, sys.verbs.Keys);
      var node' := node.(sent := Record(node.sent, e.id).0);
      assert |node'.sent.members| == |node.sent.members| + 1;
      var k := |sys.verbs.Keys| - |node.sent.members|;
      assert sys.size * (k - 1) == sys.size * k - sys.size;
      TotalUpdate(sys, s.nodes, n, node');
      TotalFanout(sys, s.nodes[n := node'], e);
    }
  }

  /** Where the sent window is the same, only mail, tasks and handled ids weigh differently. */
  lemma WeightChange(sys: System, a: Node, b: Node)
    requires a.sent.members == b.sent.members
    ensures Weight(sys, b) - Weight(sys, a)
            == |b.inbox| + |b.tasks| - |b.handler.handled.members|
               - (|a.inbox| + |a.tasks| - |a.handler.handled.members|)
  {
  }

  lemma DeliverTotal(sys: System, s: State, n: nat, i: nat)
    requires sys.Few() && Inv(sys, s) && Enabled(sys, s, Deliver(n, i))
    ensures Total(sys, Next(sys, s, Deliver(n, i)).nodes) < Total(sys, s.nodes)
  {
    var node, e := s.nodes[n], s.nodes[n].inbox[i];
    var node' := Next(sys, s, Deliver(n, i)).nodes[n];
    TotalUpdate(sys, s.nodes, n, node');
    WeightChange(sys, node, node');
    assert |node'.inbox| + |node'.tasks| - |node'.handler.handled.members|
           < |node.inbox| + |node.tasks| - |node.handler.handled.members| by {
      assert NodeOk(sys, node);
      ReactionOk(sys, node, n, e);
    }
  }

  lemma TakenTotal(sys: System, s: State, n: nat, i: nat)
    requires n < |s.nodes| && i < |s.nodes[n].tasks|
    ensures Total(sys, Taken(s, n, i).nodes) == Total(sys, s.nodes) - 1
  {
    var node' := Taken(s, n, i).nodes[n];
    TotalUpdate(sys, s.nodes, n, node');
    WeightChange(sys, s.nodes[n], node');
  }

  lemma SendOutsideTotal(sys: System, s: State, n: nat, e: Event, up: bool)
    requires sys.Few() && |s.nodes| == sys.size && n < |s.nodes| && WindowsOk(sys, s.nodes[n]) && e.id in sys.verbs
    ensures Total(sys, SendOutside(s, n, e, up).nodes) == Total(sys, s.nodes)
  {
    if e.id !in s.nodes[n].sentOutside.members {
      if up {
        var node' := SendOutside(s, n, e, up).nodes[n];
        TotalUpdate(sys, s.nodes, n, node');
        WeightChange(sys, s.nodes[n], node');
      } else {
        BroadcastTotal(sys, s, n, e);
      }
    }
  }

  lemma PublishTotal(sys: System, s: State, n: nat, i: nat, up: bool)
    requires sys.Few() && Inv(sys, s) && Enabled(sys, s, Publish(n, i, up))
    ensures Total(sys, Next(sys, s, Publish(n, i, up)).nodes) < Total(sys, s.nodes)
  {
    var t, s' := s.nodes[n].tasks[i], Taken(s, n, i);
    assert NodeOk(sys, s.nodes[n]) && t in s.nodes[n].tasks;
    TakenTotal(sys, s, n, i);
    if t.ToNodes? {
      BroadcastTotal(sys, s', n, t.event);
    } else {
      SendOutsideTotal(sys, s', n, t.event, up);
    }
  }

  /** Delivering and publishing use up weight; only new events add some. */
  lemma StepTotal(sys: System, s: State, step: Step)
    requires sys.Few() && Inv(sys, s) && Enabled(sys, s, step)
    ensures Total(sys, Next(sys, s, step).nodes) <= Total(sys, s.nodes) + (if step.Inject? then 1 else -1)
  {
    match step
    case Inject(n, id) =>
      TotalUpdate(sys, s.nodes, n, Next(sys, s, step).nodes[n]);
    case Deliver(n, i) => DeliverTotal(sys, s, n, i);
    case Publish(n, i, up) => PublishTotal(sys, s, n, i, up);
  }

  function Injections(steps: seq<Step>): nat {
    if steps == [] then 0 else (if steps[0].Inject? then 1 else 0) + Injections(steps[1..])
  }

  /** How many of the steps are injections. */
  lemma {:induction false} InjectionsAdd(a: seq<Step>, b: seq<Step>)
    ensures Injections(a + b) == Injections(a) + Injections(b)
    ensures forall step: Step :: Injections([step]) == if step.Inject? then 1 else 0
  {
    if a == [] {
      assert a + b == b;
    } else {
      InjectionsAdd(a[1..], b);
      assert (a + b)[1..] == a[1..] + b;
    }
  }

  lemma {:induction false} RunTotal(sys: System, s: State, steps: seq<Step>)
    requires sys.Few() && Inv(sys, s) && IsRun(sys, s, steps)
    ensures Total(sys, After(sys, s, steps).nodes) + |steps| <= Total(sys, s.nodes) + 2 * Injections(steps)
    decreases |steps|
  {
    if steps != [] {
      StepKeepsInv(sys, s, steps[0]);
      StepTotal(sys, s, steps[0]);
      RunTotal(sys, Next(sys, s, steps[0]), steps[1..]);
    }
  }

  lemma Distribute(a: int, b: int, c: int)
    ensures (a + b) * c == a * c + b * c
  {
  }

  lemma {:induction false} IdleTotal(sys: System, k: nat)
    ensures Total(sys, seq(k, i => IDLE)) == k * ((sys.size + 1) * |sys.verbs.Keys|)
  {
    if k != 0 {
      IdleTotal(sys, k - 1);
      var idle := seq(k, i => IDLE);
      assert idle[0] == IDLE && idle[1..] == seq(k - 1, i => IDLE);
      var c := (sys.size + 1) * |sys.verbs.Keys|;
      assert Weight(sys, IDLE) == c by {
        Distribute(sys.size, 1, |sys.verbs.Keys|);
      }
      assert (k - 1) * c + c == k * c by {
        Distribute(k - 1, 1, c);
      }
    }
  }

  /**
    The relaying and bouncing end: besides the injections themselves a run of N nodes and U ids
    takes at most N * (N + 1) * U steps, plus one for each injection.
  */
  lemma RunsAreBounded(sys: System, steps: seq<Step>)
    requires sys.Few() && IsRun(sys, Start(sys), steps)
    ensures |steps| - Injections(steps)
            <= sys.size * ((sys.size + 1) * |sys.verbs.Keys|) + Injections(steps)
  {
    StartInv(sys);
    RunTotal(sys, Start(sys), steps);
    RunKeepsInv(sys, Start(sys), steps);
    var s := After(sys, Start(sys), steps);
    forall n | 0 <= n < |s.nodes|
      ensures WindowsOk(sys, s.nodes[n])
    {
    }
    TotalNotNegative(sys, s.nodes);
    IdleTotal(sys, sys.size);
  }

  /** No message and no task is left anywhere. */
  ghost predicate Quiet(s: State) {
    forall n :: 0 <= n < |s.nodes| ==> s.nodes[n].inbox == [] && s.nodes[n].tasks == []
  }

  /** The system stops only when it is quiet. */
  lemma StopsOnlyWhenQuiet(sys: System, steps: seq<Step>)
    requires sys.Few() && IsRun(sys, Start(sys), steps)
    ensures var s := After(sys, Start(sys), steps);
            Quiet(s) <==> forall step :: Enabled(sys, s, step) ==> step.Inject?
  {
    StartInv(sys);
    RunKeepsInv(sys, Start(sys), steps);
    var s := After(sys, Start(sys), steps);
    if !Quiet(s) {
      var n: nat :| n < |s.nodes| && (s.nodes[n].inbox != [] || s.nodes[n].tasks != []);
      assert NodeOk(sys, s.nodes[n]);
      if s.nodes[n].inbox != [] {
        assert s.nodes[n].inbox[0] in s.nodes[n].inbox;
        assert Enabled(sys, s, Deliver(n, 0));
      } else {
        assert Enabled(sys, s, Publish(n, 0, true));
      }
    }
  }

  /**
    When it is quiet, every injected event has been handled exactly once on every node, its local
    part has run exactly once on exactly the nodes where it belongs, and a ban is stored by each node
    and has been passed on by each node that the user is not on. An event for the outside has left
    each node, to the outside or back onto the exchange.
  */
  lemma QuietMeansDelivered(sys: System, steps: seq<Step>, n: nat, id: string)
    requires sys.Few() && IsRun(sys, Start(sys), steps) && n < sys.size
    requires var s := After(sys, Start(sys), steps); Quiet(s) && id in s.injected
    ensures var s := After(sys, Start(sys), steps);
            && s.handlings[(n, id)] == 1
            && s.runs[(n, id)] == (if RunsOn(sys, n, id) then 1 else 0)
            && id in sys.verbs
            && s.bans[(n, id)] == (if sys.verbs[id].Ban? then 1 else 0)
            && (sys.verbs[id].Ban? && (n, id) !in sys.here ==> s.broadcasts[(n, id)] == 1)
            && n < |s.nodes|
            && (sys.verbs[id].Other? ==> id in s.nodes[n].sentOutside.members || s.broadcasts[(n, id)] == 1)
  {
    StartInv(sys);
    RunKeepsInv(sys, Start(sys), steps);
    var s := After(sys, Start(sys), steps);
    assert PendingOrSpread(s, id);
    assert Spread(s, id);
    assert NodeOk(sys, s.nodes[n]) && Forwarded(sys, n, s.nodes[n], id);
  }
}
