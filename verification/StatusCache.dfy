/**
  The memory tier in front of Redis: entries that expire, the clean-up that drops them early, and
  how old a status can be that some node still returns.
*/
module StatusCache {
  import opened Strings

  const THIRTY_SECONDS := 30.0
  const TEN_SECONDS := 10.0

  datatype Entry = Entry(expiresAt: real, value: string)

  /** What a look-up at time `now` finds. */
  function Look(e: Option<Entry>, now: real): Option<string> {
    if e.None? || now > e.value.expiresAt then None else Some(e.value.value)
  }

  /** An expired entry is deleted when it is looked up. */
  function AfterLook(e: Option<Entry>, now: real): Option<Entry> {
    if Look(e, now).None? then None else e
  }

  /** The clean-up keeps an entry only if it is still valid 31 seconds later. */
  function Cleaned(e: Option<Entry>, now: real): Option<Entry> {
    if Look(e, now + 31.0).None? then None else e
  }

  /** Cleaning up may turn a hit into a miss, but not into another value. */
  lemma CleanupOnlyForgets(e: Option<Entry>, now: real, later: real)
    ensures Look(Cleaned(e, now), later) in {None, Look(e, later)}
    ensures Look(Cleaned(e, now), later) == Look(e, later) <==> Look(e, now + 31.0).Some? || Look(e, later).None?
  {
  }

  class MemoryCache {
    var vals: map<string, Entry>

    constructor ()
      ensures vals == map[]
    {
      vals := map[];
    }

    function EntryOf(key: string): Option<Entry>
      reads this
    {
      if key in vals then Some(vals[key]) else None
    }

    method Set(key: string, value: string, ttl: real, now: real)
      modifies this
      ensures vals == old(vals)[key := Entry(now + ttl, value)]
    {
      vals := vals[key := Entry(now + ttl, value)];
    }

    method Get(key: string, now: real) returns (r: Option<string>)
      modifies this
      ensures r == Look(old(EntryOf(key)), now)
      ensures EntryOf(key) == AfterLook(old(EntryOf(key)), now)
      ensures forall k :: k != key ==> EntryOf(k) == old(EntryOf(k))
    {
      if key !in vals {
        return None;
      }
      var entry := vals[key];
      if now > entry.expiresAt {
        vals := vals - {key};
        return None;
      }
      r := Some(entry.value);
    }

    /** Goes over a copy of the table and deletes from the table itself. */
    method Cleanup(now: real)
      modifies this
      ensures forall k :: EntryOf(k) == Cleaned(old(EntryOf(k)), now)
    {
      var threshold := now + 31.0;
      var values := vals;
      var todo := values.Keys;
      while todo != {}
        invariant todo <= values.Keys
        invariant forall k :: EntryOf(k) == if k in todo then old(EntryOf(k)) else Cleaned(old(EntryOf(k)), now)
        decreases |todo|
      {
        var key :| key in todo;
        if threshold > values[key].expiresAt {
          if key in vals {
            vals := vals - {key};
          }
        }
        todo := todo - {key};
      }
    }

  }

  // ----- One node -----

  /** `get_user_status`: memory first, then Redis. */
  function Answer(e: Option<Entry>, inRedis: Option<string>, now: real): Option<string> {
    if Look(e, now).Some? then Look(e, now) else inRedis
  }

  /** A status found in Redis is remembered for ten seconds. */
  function AfterGet(e: Option<Entry>, inRedis: Option<string>, now: real): Option<Entry> {
    if Look(e, now).Some? then e
    else if inRedis.None? then None
    else Some(Entry(now + TEN_SECONDS, inRedis.value))
  }

  /** A status written by this node is remembered for thirty seconds. */
  function AfterSet(value: string, now: real): Option<Entry> { Some(Entry(now + THIRTY_SECONDS, value)) }

  /** An entry is found up to its expiry, and not later. */
  lemma EntryLives(expiresAt: real, value: string, now: real)
    ensures Look(Some(Entry(expiresAt, value)), now) == if now <= expiresAt then Some(value) else None
    ensures Look(None, now) == None
  {
  }

  /** A node answers from memory for thirty seconds after a write and for ten after a read, then from Redis. */
  lemma AnswersFor(value: string, at: real, inRedis: Option<string>, now: real)
    requires at <= now
    ensures Answer(AfterSet(value, at), inRedis, now) == if now <= at + 30.0 then Some(value) else inRedis
    ensures forall e :: Look(e, at).None? ==>
              Answer(AfterGet(e, Some(value), at), inRedis, now) == if now <= at + 10.0 then Some(value) else inRedis
    ensures forall e, r :: Look(e, at).Some? ==> AfterGet(e, r, at) == e
    ensures forall e :: Look(e, at).None? ==> AfterGet(e, None, at) == None && Answer(e, inRedis, at) == inRedis
  {
  }

  class StatusNode {
    const cache: MemoryCache

    constructor ()
      ensures fresh(cache) && forall key :: cache.EntryOf(key).None?
    {
      cache := new MemoryCache();
    }

    method GetUserStatus(key: string, inRedis: Option<string>, now: real) returns (status: Option<string>)
      modifies cache
      ensures status == Answer(old(cache.EntryOf(key)), inRedis, now)
      ensures cache.EntryOf(key) == AfterGet(old(cache.EntryOf(key)), inRedis, now)
      ensures forall k :: k != key ==> cache.EntryOf(k) == old(cache.EntryOf(k))
    {
      status := cache.Get(key, now);
      if status.Some? {
        return;
      }
      if inRedis.None? {
        return None;
      }
      status := inRedis;
      cache.Set(key, status.value, TEN_SECONDS, now);
    }

    method SetUserStatus(key: string, value: string, now: real)
      modifies cache
      ensures cache.EntryOf(key) == AfterSet(value, now)
      ensures forall k :: k != key ==> cache.EntryOf(k) == old(cache.EntryOf(k))
    {
      cache.Set(key, value, THIRTY_SECONDS, now);
    }
  }

  // ----- One user's status on many nodes -----

  datatype Write = Write(time: real, value: string)

  /** The clock, all writes of the status to Redis so far, and each node's entry. */
  datatype State = State(now: real, history: seq<Write>, nodes: seq<Option<Entry>>)

  datatype Step =
    | Tick(seconds: real)
    | SetStatus(node: nat, value: string)
    | GetStatus(node: nat)
    | Cleanup(node: nat)

  predicate Enabled(s: State, step: Step) {
    if step.Tick? then step.seconds >= 0.0 else step.node < |s.nodes|
  }

  function InRedis(s: State): Option<string> {
    if s.history == [] then None else Some(s.history[|s.history| - 1].value)
  }

  function Returned(s: State, n: nat): Option<string>
    requires n < |s.nodes|
  {
    Answer(s.nodes[n], InRedis(s), s.now)
  }

  function Next(s: State, step: Step): State
    requires Enabled(s, step)
  {
    match step
    case Tick(d) => s.(now := s.now + d)
    case SetStatus(n, v) =>
      s.(nodes := s.nodes[n := AfterSet(v, s.now)], history := s.history + [Write(s.now, v)])
    case GetStatus(n) => s.(nodes := s.nodes[n := AfterGet(s.nodes[n], InRedis(s), s.now)])
    case Cleanup(n) => s.(nodes := s.nodes[n := Cleaned(s.nodes[n], s.now)])
  }

  /**
    A node that writes a status keeps it for thirty seconds; one that asks repeats its answer, and keeps
    what it had to fetch for ten; cleaning up drops what would not last 31 more. Nothing else changes.
  */
  lemma NodeSteps(s: State, n: nat, v: string)
    requires n < |s.nodes|
    ensures var s' := Next(s, SetStatus(n, v));
            && s'.history == s.history + [Write(s.now, v)] && s'.now == s.now
            && s'.nodes == s.nodes[n := Some(Entry(s.now + 30.0, v))]
    ensures var s' := Next(s, GetStatus(n));
            && s'.history == s.history && s'.now == s.now && Returned(s', n) == Returned(s, n)
            && if Look(s.nodes[n], s.now).Some? then s'.nodes == s.nodes
               else if s.history == [] then s'.nodes == s.nodes[n := None]
               else s'.nodes == s.nodes[n := Some(Entry(s.now + 10.0, s.history[|s.history| - 1].value))]
    ensures var s' := Next(s, Cleanup(n));
            && s'.history == s.history && s'.now == s.now
            && s'.nodes == if s.nodes[n].Some? && s.nodes[n].value.expiresAt < s.now + 31.0 then s.nodes[n := None]
                           else s.nodes
    ensures forall d :: d >= 0.0 ==> Next(s, Tick(d)) == s.(now := s.now + d)
  {
  }

  /** Redis held `v` at some moment from `from` on: the write of `v` was not replaced before. */
  ghost predicate HeldAfter(history: seq<Write>, v: string, from: real) {
    exists i :: 0 <= i < |history| && history[i].value == v && (i + 1 < |history| ==> history[i + 1].time >= from)
  }

  ghost predicate EntryOk(s: State, e: Option<Entry>) {
    e.Some? ==>
      && e.value.expiresAt - THIRTY_SECONDS <= s.now
      && HeldAfter(s.history, e.value.value, e.value.expiresAt - THIRTY_SECONDS)
  }

  ghost predicate Inv(s: State) {
    && (forall i :: 0 <= i < |s.history| ==> s.history[i].time <= s.now)
    && forall n :: 0 <= n < |s.nodes| ==> EntryOk(s, s.nodes[n])
  }

  lemma HeldAfterWrite(history: seq<Write>, w: Write, v: string, from: real)
    requires HeldAfter(history, v, from) && from <= w.time
    ensures HeldAfter(history + [w], v, from)
  {
    var i :| 0 <= i < |history| && history[i].value == v && (i + 1 < |history| ==> history[i + 1].time >= from);
    var longer := history + [w];
    assert longer[i].value == v;
    assert longer[i + 1] == if i + 1 < |history| then history[i + 1] else w;
  }

  lemma StepKeepsInv(s: State, step: Step)
    requires Inv(s) && Enabled(s, step)
    ensures Inv(Next(s, step))
  {
    var s' := Next(s, step);
    match step
    case SetStatus(n, v) =>
      var w := Write(s.now, v);
      assert s'.history[|s.history|] == w;
      assert HeldAfter(s'.history, v, s.now);
      forall m | 0 <= m < |s.nodes| && m != n
        ensures EntryOk(s', s'.nodes[m])
      {
        assert EntryOk(s, s.nodes[m]);
        if s.nodes[m].Some? {
          var e := s.nodes[m].value;
          HeldAfterWrite(s.history, w, e.value, e.expiresAt - THIRTY_SECONDS);
        }
      }
    case GetStatus(n) =>
      if InRedis(s).Some? {
        var last := |s.history| - 1;
        assert s.history[last].value == InRedis(s).value;
        assert HeldAfter(s.history, InRedis(s).value, s.now + TEN_SECONDS - THIRTY_SECONDS);
      }
    case _ =>
  }

  ghost predicate IsRun(s: State, steps: seq<Step>)
    decreases |steps|
  {
    steps != [] ==> Enabled(s, steps[0]) && IsRun(Next(s, steps[0]), steps[1..])
  }

  function After(s: State, steps: seq<Step>): State
    requires IsRun(s, steps)
    decreases |steps|
  {
    if steps == [] then s else After(Next(s, steps[0]), steps[1..])
  }

  /** A longer run takes one more step from where the shorter one ends. */
  lemma {:induction false} AfterOneMore(s: State, steps: seq<Step>, step: Step)
    requires IsRun(s, steps) && Enabled(After(s, steps), step)
    ensures IsRun(s, steps + [step]) && After(s, steps + [step]) == Next(After(s, steps), step)
    decreases |steps|
  {
    if steps == [] {
      assert steps + [step] == [step] && [step][1..] == [];
    } else {
      AfterOneMore(Next(s, steps[0]), steps[1..], step);
      assert (steps + [step])[1..] == steps[1..] + [step];
    }
  }

  lemma {:induction false} RunKeepsInv(s: State, steps: seq<Step>)
    requires Inv(s) && IsRun(s, steps)
    ensures Inv(After(s, steps)) && |After(s, steps).nodes| == |s.nodes|
    decreases |steps|
  {
    if steps != [] {
      StepKeepsInv(s, steps[0]);
      RunKeepsInv(Next(s, steps[0]), steps[1..]);
    }
  }

  function Start(nodes: nat, now: real): State { State(now, [], seq(nodes, i => None)) }

  /**
    Bounded staleness: over every run, whatever a node returns was the status in Redis at some
    moment of the last thirty seconds, and it returns nothing only if no status was ever written.
  */
  lemma StatusAtMostThirtySecondsOld(nodes: nat, now: real, steps: seq<Step>, n: nat)
    requires IsRun(Start(nodes, now), steps) && n < nodes
    ensures var s := After(Start(nodes, now), steps);
            && n < |s.nodes|
            && (Returned(s, n).None? <==> s.history == [])
            && (Returned(s, n).Some? ==> HeldAfter(s.history, Returned(s, n).value, s.now - THIRTY_SECONDS))
  {
    RunKeepsInv(Start(nodes, now), steps);
    var s := After(Start(nodes, now), steps);
    assert EntryOk(s, s.nodes[n]);
    if Look(s.nodes[n], s.now).Some? {
      var e := s.nodes[n].value;
      var i :| 0 <= i < |s.history| && s.history[i].value == e.value
               && (i + 1 < |s.history| ==> s.history[i + 1].time >= e.expiresAt - THIRTY_SECONDS);
      assert HeldAfter(s.history, e.value, s.now - THIRTY_SECONDS);
    } else if s.history != [] {
      assert s.history[|s.history| - 1].value == Returned(s, n).value;
    }
  }

  /**
    A status entry never outlives the clean-up: its thirty seconds are less than the 31 it would
    have to have left. So right after a clean-up a node returns what Redis has.
  */
  lemma CleanupDropsEveryStatus(nodes: nat, now: real, steps: seq<Step>, n: nat)
    requires IsRun(Start(nodes, now), steps) && n < nodes
    ensures var s := After(Start(nodes, now), steps);
            && Enabled(s, Cleanup(n))
            && Next(s, Cleanup(n)).nodes[n].None?
            && Returned(Next(s, Cleanup(n)), n) == InRedis(s)
  {
    RunKeepsInv(Start(nodes, now), steps);
    var s := After(Start(nodes, now), steps);
    assert EntryOk(s, s.nodes[n]);
  }
}
