/**
  Who is online: the sessions, the bitmap, the online set, the multicast set and the status of each
  user in Redis, and the status copies in each node's memory, as the login, status, disconnect and
  ban handlers change them.
*/
module Presence {
  import opened CsvSets
  import opened SessionEnd
  import opened Strings

  datatype Status = Available | Chat | Invisible | Unavailable | Unknown | Away

  datatype Store = Store(
    kind: Kind,  // which sessions the database object keeps
    sessions: Table,
    bitmap: set<nat>,
    online: set<string>,
    multicast: set<string>,
    status: map<string, Status>)

  function Nobody(kind: Kind): Store { Store(kind, {}, {}, {}, {}, map[]) }

  /** Below this, `int(float(id))` is exact. */
  const EXACT_FLOATS: nat := 9007199254740992

  /** A decimal user id without leading zeros. */
  predicate Canonical(id: string) {
    id != "" && IsDigits(id) && Dec(DecValue(id)) == id && DecValue(id) <= EXACT_FLOATS
  }

  /** The position of a user in the bitmap. */
  function Bit(id: string): nat
    requires Canonical(id)
  {
    DecValue(id)
  }

  // ----- The operations on the store -----

  datatype Action = Nothing | GoOnline | GoOffline | GoInvisible | MarkInvisible | MarkAway | DropMulticast

  function Apply(s: Store, u: string, a: Action): Store
    requires Canonical(u)
  {
    match a
    case Nothing => s
    case GoOnline =>
      s.(bitmap := s.bitmap + {Bit(u)}, online := s.online + {u}, multicast := s.multicast + {u},
         status := s.status[u := Available])
    case GoOffline =>
      s.(bitmap := s.bitmap - {Bit(u)}, online := s.online - {u}, multicast := s.multicast - {u},
         status := s.status[u := Unavailable])
    case GoInvisible =>
      s.(bitmap := s.bitmap - {Bit(u)}, online := s.online - {u}, multicast := s.multicast + {u},
         status := s.status[u := Invisible])
    case MarkInvisible => s.(status := s.status[u := Invisible])
    case MarkAway => s.(status := s.status[u := Away])
    case DropMulticast => s.(multicast := s.multicast - {u})
  }

  /** The status an action writes, to Redis and to the node's memory. */
  function Written(a: Action): Option<Status> {
    match a
    case GoOnline => Some(Available)
    case GoOffline => Some(Unavailable)
    case GoInvisible => Some(Invisible)
    case MarkInvisible => Some(Invisible)
    case MarkAway => Some(Away)
    case _ => None
  }

  // ----- The handlers -----

  datatype Event =
    | Login(user: string, sid: string, invisibleLogin: bool)
    | SetOnline(user: string)
    | SetInvisible(user: string, stageLogin: bool)
    | SetVisible(user: string)
    | SetOffline(user: string)
    | SetAway(user: string)
    | SetBack(user: string)
    | Disconnect(user: string, sid: string, socket: bool)  // of a socket, or of a heartbeat session
    | BanGlobally(user: string)

  /** `utils.user_is_online` */
  predicate CountsAsOnline(r: Status) { r in {Available, Chat, Invisible, Away} }

  /** The user's sessions after the handler: a blank session is not added. */
  function SidsAfter(s: Store, e: Event): set<string> {
    var sids := SidsIn(s.sessions, e.user);
    match e
    case Login(_, sid, _) => if IsBlank(sid) then sids else Added(s.kind, sids, sid)
    case Disconnect(_, sid, socket) => Ended(s.kind, sids, sid, socket).0
    case _ => sids
  }

  /** The disconnect hook finds no session but the one that ends. */
  predicate Gone(s: Store, e: Event) {
    e.Disconnect? && Ended(s.kind, SidsIn(s.sessions, e.user), e.sid, e.socket).1
  }

  /** What a handler does after reading status `r`. */
  function Decide(e: Event, r: Status, inMulticast: bool, gone: bool): Action {
    match e
    case Login(_, _, invisibleLogin) => if r == Invisible || invisibleLogin then GoInvisible else GoOnline
    case SetOnline(_) => GoOnline
    case SetInvisible(_, stageLogin) =>
      if r == Invisible then Nothing
      else if stageLogin || !CountsAsOnline(r) then MarkInvisible
      else GoInvisible
    case SetVisible(_) =>
      if r in {Available, Chat} then Nothing else if inMulticast then GoOnline else GoOffline
    case SetOffline(_) => GoOffline
    case SetAway(_) => if r == Available then MarkAway else Nothing
    case SetBack(_) => if r == Away then GoOnline else Nothing
    case Disconnect(_, _, _) =>
      if !gone then Nothing else if r == Invisible then DropMulticast else GoOffline
    case BanGlobally(_) => if r == Invisible then DropMulticast else GoOffline
  }

  function Step(s: Store, e: Event, r: Status): Store
    requires Canonical(e.user)
  {
    Apply(s.(sessions := WithSids(s.sessions, e.user, SidsAfter(s, e))), e.user,
          Decide(e, r, e.user in s.multicast, Gone(s, e)))
  }

  /** The status in Redis; a user never seen is unavailable. */
  function StatusOf(s: Store, u: string): Status {
    if u in s.status then s.status[u] else Unavailable
  }

  // ----- The invariant -----

  predicate Active(st: Status) { st in {Available, Away} }

  predicate UserOk(s: Store, u: string)
    requires Canonical(u)
  {
    var bit, online, multicast, st := Bit(u) in s.bitmap, u in s.online, u in s.multicast, StatusOf(s, u);
    && bit == online
    && st in {Available, Away, Unavailable, Invisible}
    && (Active(st) ==> bit && multicast)
    && (st == Unavailable ==> !bit && !multicast)
    && (st == Invisible ==> !bit)
  }

  ghost predicate Inv(s: Store) { forall u :: Canonical(u) ==> UserOk(s, u) }

  /** Canonical ids do not share bits. */
  lemma BitsDiffer(u: string, v: string)
    requires Canonical(u) && Canonical(v) && u != v
    ensures Bit(u) != Bit(v)
  {
  }

  /** Ids written with leading zeros do: two different ids, one bit. */
  lemma LeadingZerosShareBits()
    ensures DecValue("7") == DecValue("07") && Canonical("7") && !Canonical("07")
  {
    assert "7"[..0] == "" && "07"[..1] == "0" && "0"[..0] == "";
    assert DecValue("7") == 7;
    assert DecValue("0") == 0;
    assert Dec(7) == "7";
  }

  /** Whether acting on the status `r` that was read fits the status that Redis has. */
  predicate Fits(e: Event, r: Status, actual: Status, gone: bool) {
    match e
    case SetAway(_) => r == Available ==> Active(actual)
    case SetInvisible(_, stageLogin) =>
      r != Invisible && (stageLogin || !CountsAsOnline(r)) ==> !Active(actual)
    case Disconnect(_, _, _) => gone && r == Invisible ==> !Active(actual)
    case BanGlobally(_) => r == Invisible ==> !Active(actual)
    case _ => true
  }

  lemma OthersUntouched(s: Store, e: Event, r: Status, v: string)
    requires Canonical(e.user) && Canonical(v) && v != e.user
    ensures UserOk(Step(s, e, r), v) <==> UserOk(s, v)
  {
    BitsDiffer(e.user, v);
  }

  /**
    Each handler, acting on whatever status it read, keeps the presence data consistent exactly
    when that status fits the one in Redis.
  */
  lemma StepKeepsInvIff(s: Store, e: Event, r: Status)
    requires Inv(s) && Canonical(e.user)
    ensures Inv(Step(s, e, r)) <==> Fits(e, r, StatusOf(s, e.user), Gone(s, e))
  {
    var s' := Step(s, e, r);
    forall v | Canonical(v) && v != e.user
      ensures UserOk(s', v)
    {
      OthersUntouched(s, e, r, v);
    }
    assert UserOk(s, e.user);
    assert Inv(s') <==> UserOk(s', e.user);
  }

  /** The change to "invisible" that leaves everything but the status alone, on a user who is active. */
  predicate LoginStageWhileActive(e: Event, actual: Status) {
    e.SetInvisible? && e.stageLogin && Active(actual)
  }

  /** A handler that read the status in Redis fits, the login-stage change of an active user aside. */
  lemma TrueStatusFits(e: Event, actual: Status, gone: bool)
    ensures Fits(e, actual, actual, gone) <==> !LoginStageWhileActive(e, actual)
  {
  }

  // ----- What being online means -----

  /** The Redis database keeps at most one session of a user. */
  ghost predicate OneEach(s: Store) { s.kind.Latest? ==> forall u :: |SidsIn(s.sessions, u)| <= 1 }

  /** The user has a session besides the one that ends, as far as the table knows. */
  predicate HasAnother(s: Store, u: string, sid: string) {
    s.kind.Every? && SidsIn(s.sessions, u) - {sid} != {}
  }

  /** A disconnect finds the user gone exactly when no other session is listed. */
  lemma GoneIff(s: Store, u: string, sid: string, socket: bool)
    requires OneEach(s)
    ensures Gone(s, Disconnect(u, sid, socket)) <==> !HasAnother(s, u, sid)
    ensures SidsAfter(s, Disconnect(u, sid, socket)) == Removed(s.kind, SidsIn(s.sessions, u), sid)
  {
    var sids := SidsIn(s.sessions, u);
    if s.kind.Every? {
      LastSessionEnds(sids, sid, socket);
    } else {
      AnySessionEnds(sids, sid, socket);
    }
  }

  lemma StepSids(s: Store, e: Event, r: Status)
    requires Canonical(e.user)
    ensures var s' := Step(s, e, r);
            && s'.kind == s.kind && SidsIn(s'.sessions, e.user) == SidsAfter(s, e)
            && forall u :: u != e.user ==> SidsIn(s'.sessions, u) == SidsIn(s.sessions, u)
  {
    WithSidsHas(s.sessions, e.user, SidsAfter(s, e));
    assert Step(s, e, r).sessions == WithSids(s.sessions, e.user, SidsAfter(s, e));
  }

  lemma StepKeepsOneEach(s: Store, e: Event, r: Status)
    requires OneEach(s) && Canonical(e.user)
    ensures OneEach(Step(s, e, r))
  {
    StepSids(s, e, r);
    if s.kind.Latest? {
      assert |SidsIn(s.sessions, e.user)| <= 1;
      if e.Disconnect? {
        AnySessionEnds(SidsIn(s.sessions, e.user), e.sid, e.socket);
      }
      assert |SidsAfter(s, e)| <= 1;
    }
  }

  /**
    What each handler means to the others: whether the user is connected afterwards (multicast) and
    whether he is seen as online (bitmap and online set). Reading the true status is assumed.
  */
  lemma HandlerMeaning(s: Store, e: Event)
    requires Inv(s) && OneEach(s) && Canonical(e.user) && !LoginStageWhileActive(e, StatusOf(s, e.user))
    ensures var u := e.user;
            var s' := Step(s, e, StatusOf(s, u));
            var connected, seen := u in s.multicast, Bit(u) in s.bitmap;
            && (u in s'.multicast
                <==> match e
                     case Login(_, _, _) => true
                     case SetOnline(_) => true
                     case SetOffline(_) => false
                     case BanGlobally(_) => false
                     case Disconnect(_, sid, _) => connected && HasAnother(s, u, sid)
                     case _ => connected)
            && (Bit(u) in s'.bitmap
                <==> match e
                     case Login(_, _, invisibleLogin) => !invisibleLogin && StatusOf(s, u) != Invisible
                     case SetOnline(_) => true
                     case SetVisible(_) => connected
                     case SetInvisible(_, _) => false
                     case SetOffline(_) => false
                     case BanGlobally(_) => false
                     case Disconnect(_, sid, _) => seen && HasAnother(s, u, sid)
                     case _ => seen)
            && (Bit(u) in s'.bitmap <==> u in s'.online)
  {
    var r := StatusOf(s, e.user);
    if e.Disconnect? {
      GoneIff(s, e.user, e.sid, e.socket);
    }
    assert UserOk(s, e.user);
    StepKeepsInvIff(s, e, r);
    TrueStatusFits(e, r, Gone(s, e));
    assert UserOk(Step(s, e, r), e.user);
  }

  /** The session that a disconnect ends was the last one listed. */
  predicate LastSession(s: Store, e: Event) { e.Disconnect? && !HasAnother(s, e.user, e.sid) }

  /** The status a handler leaves behind, for any status `r` it read. */
  lemma StatusMeaning(s: Store, e: Event, r: Status)
    requires OneEach(s) && Canonical(e.user)
    ensures StatusOf(Step(s, e, r), e.user)
            == StatusLeft(e, r, StatusOf(s, e.user), e.user in s.multicast, LastSession(s, e))
  {
    StatusAfter(s, e, r, e.user);
    if e.Disconnect? {
      GoneIff(s, e.user, e.sid, e.socket);
    }
    DecisionMeaning(e, r, StatusOf(s, e.user), e.user in s.multicast, Gone(s, e));
  }

  function StatusLeft(e: Event, r: Status, st: Status, connected: bool, last: bool): Status {
    match e
    case Login(_, _, invisibleLogin) => if invisibleLogin || r == Invisible then Invisible else Available
    case SetOnline(_) => Available
    case SetOffline(_) => Unavailable
    case SetInvisible(_, _) => if r == Invisible then st else Invisible
    case SetVisible(_) => if r == Available || r == Chat then st else if connected then Available else Unavailable
    case SetAway(_) => if r == Available then Away else st
    case SetBack(_) => if r == Away then Available else st
    case Disconnect(_, _, _) => if last && r != Invisible then Unavailable else st
    case BanGlobally(_) => if r == Invisible then st else Unavailable
  }

  lemma DecisionMeaning(e: Event, r: Status, st: Status, connected: bool, last: bool)
    ensures var written := Written(Decide(e, r, connected, last));
            (if written.Some? then written.value else st) == StatusLeft(e, r, st, connected, last)
  {
  }

  /** Whether a user is seen as online after a handler that read `r`, if he was before or not. */
  predicate SeenAfter(e: Event, r: Status, seen: bool, connected: bool, last: bool) {
    match e
    case Login(_, _, invisibleLogin) => !invisibleLogin && r != Invisible
    case SetOnline(_) => true
    case SetOffline(_) => false
    case SetInvisible(_, stageLogin) => seen && (stageLogin || r in {Invisible, Unavailable, Unknown})
    case SetVisible(_) => if r == Available || r == Chat then seen else connected
    case SetAway(_) => seen
    case SetBack(_) => seen || r == Away
    case Disconnect(_, _, _) => seen && (r == Invisible || !last)
    case BanGlobally(_) => seen && r == Invisible
  }

  /** Whether he is in multicast. */
  predicate ConnectedAfter(e: Event, r: Status, connected: bool, last: bool) {
    match e
    case Login(_, _, _) => true
    case SetOnline(_) => true
    case SetOffline(_) => false
    case SetInvisible(_, stageLogin) => connected || (!stageLogin && r in {Available, Chat, Away})
    case SetBack(_) => connected || r == Away
    case Disconnect(_, _, _) => connected && !last
    case BanGlobally(_) => false
    case _ => connected
  }

  /** Bitmap, online set and multicast after a handler that read `r`. */
  lemma VisibilityMeaning(s: Store, e: Event, r: Status)
    requires OneEach(s) && Canonical(e.user)
    ensures var u, s' := e.user, Step(s, e, r);
            var connected, last := u in s.multicast, LastSession(s, e);
            && (Bit(u) in s'.bitmap <==> SeenAfter(e, r, Bit(u) in s.bitmap, connected, last))
            && (u in s'.online <==> SeenAfter(e, r, u in s.online, connected, last))
            && (u in s'.multicast <==> ConnectedAfter(e, r, connected, last))
  {
    var u, last := e.user, LastSession(s, e);
    assert Gone(s, e) == last by {
      if e.Disconnect? {
        GoneIff(s, u, e.sid, e.socket);
      }
    }
    var a := Decide(e, r, u in s.multicast, last);
    ActionShows(s.(sessions := WithSids(s.sessions, u, SidsAfter(s, e))), u, a);
    DecisionShows(e, r, Bit(u) in s.bitmap, u in s.multicast, last);
    DecisionShows(e, r, u in s.online, u in s.multicast, last);
  }

  lemma ActionShows(s: Store, u: string, a: Action)
    requires Canonical(u)
    ensures var s' := Apply(s, u, a);
            && (Bit(u) in s'.bitmap <==> ShownBy(a, Bit(u) in s.bitmap))
            && (u in s'.online <==> ShownBy(a, u in s.online))
            && (u in s'.multicast <==> JoinedBy(a, u in s.multicast))
  {
  }

  predicate ShownBy(a: Action, before: bool) { a.GoOnline? || (before && !a.GoOffline? && !a.GoInvisible?) }

  predicate JoinedBy(a: Action, before: bool) {
    a.GoOnline? || a.GoInvisible? || (before && !a.GoOffline? && !a.DropMulticast?)
  }

  lemma DecisionShows(e: Event, r: Status, seen: bool, connected: bool, last: bool)
    ensures var a := Decide(e, r, connected, last);
            && (SeenAfter(e, r, seen, connected, last) <==> ShownBy(a, seen))
            && (ConnectedAfter(e, r, connected, last) <==> JoinedBy(a, connected))
  {
  }

  /** The sessions after a handler. */
  lemma SessionsMeaning(s: Store, e: Event, r: Status)
    requires OneEach(s) && Canonical(e.user)
    ensures var s', sids := Step(s, e, r), SidsIn(s.sessions, e.user);
            && s'.kind == s.kind
            && SidsIn(s'.sessions, e.user)
               == match e
                  case Login(_, sid, _) =>
                    if IsBlank(sid) then sids else if s.kind.Every? then sids + {sid} else {sid}
                  case Disconnect(_, sid, _) => if s.kind.Every? then sids - {sid} else {}
                  case _ => sids
  {
    StepSids(s, e, r);
    if e.Disconnect? {
      GoneIff(s, e.user, e.sid, e.socket);
    }
  }

  /** A handler leaves all other users alone. */
  lemma OthersAsBefore(s: Store, e: Event, r: Status, v: string)
    requires Canonical(e.user) && v != e.user
    ensures var s' := Step(s, e, r);
            && SidsIn(s'.sessions, v) == SidsIn(s.sessions, v) && StatusOf(s', v) == StatusOf(s, v)
            && (v in s'.online <==> v in s.online) && (v in s'.multicast <==> v in s.multicast)
            && (Canonical(v) ==> (Bit(v) in s'.bitmap <==> Bit(v) in s.bitmap))
  {
    StepSids(s, e, r);
    StatusAfter(s, e, r, v);
    ActionSpares(s.(sessions := WithSids(s.sessions, e.user, SidsAfter(s, e))), e.user,
                 Decide(e, r, e.user in s.multicast, Gone(s, e)), v);
  }

  lemma ActionSpares(s: Store, u: string, a: Action, v: string)
    requires Canonical(u) && v != u
    ensures var s' := Apply(s, u, a);
            && (v in s'.online <==> v in s.online) && (v in s'.multicast <==> v in s.multicast)
            && (Canonical(v) ==> (Bit(v) in s'.bitmap <==> Bit(v) in s.bitmap))
  {
    if Canonical(v) {
      BitsDiffer(u, v);
    }
  }

  /** Whoever is in multicast has a session. */
  ghost predicate Connected(s: Store) {
    forall u :: Canonical(u) && u in s.multicast ==> SidsIn(s.sessions, u) != {}
  }

  /**
    A handler that puts a user without sessions into multicast: setting him online, a login with a blank
    session, or acting on a status that says he was away or online.
  */
  predicate Sessionless(s: Store, e: Event, r: Status) {
    && SidsIn(s.sessions, e.user) == {}
    && match e
       case SetOnline(_) => true
       case Login(_, sid, _) => IsBlank(sid)
       case SetBack(_) => r == Away
       case SetInvisible(_, stageLogin) => !stageLogin && r != Invisible && CountsAsOnline(r)
       case _ => false
  }

  /** Acting on whatever status it read, every handler keeps multicast to users with sessions, those cases aside. */
  lemma StepKeepsConnectedIff(s: Store, e: Event, r: Status)
    requires Connected(s) && Canonical(e.user)
    ensures Connected(Step(s, e, r)) <==> !Sessionless(s, e, r)
  {
    var u := e.user;
    var s0 := s.(sessions := WithSids(s.sessions, u, SidsAfter(s, e)));
    ActionShows(s0, u, Decide(e, r, u in s.multicast, Gone(s, e)));
    StepSids(s, e, r);
    SessionsAndMulticast(s, e, r);
    OthersConnected(s, e, r);
  }

  lemma SessionsAndMulticast(s: Store, e: Event, r: Status)
    requires e.user in s.multicast ==> SidsIn(s.sessions, e.user) != {}
    ensures var connected := e.user in s.multicast;
            (JoinedBy(Decide(e, r, connected, Gone(s, e)), connected) ==> SidsAfter(s, e) != {})
            <==> !Sessionless(s, e, r)
  {
    if e.Login? && !IsBlank(e.sid) {
      assert e.sid in SidsAfter(s, e);
    }
    if e.Disconnect? {
      GoneLeavesNothing(s, e);
    }
  }

  /** A disconnect that does not find the user gone leaves him a session. */
  lemma GoneLeavesNothing(s: Store, e: Event)
    requires e.Disconnect?
    ensures Gone(s, e) ==> SidsAfter(s, e) == {}
    ensures SidsAfter(s, e) == {} ==> Gone(s, e)
  {
  }

  /** Reading the true status leaves two of the cases. */
  lemma TrueStatusSessionless(s: Store, e: Event)
    requires Inv(s) && Connected(s) && Canonical(e.user)
    ensures Sessionless(s, e, StatusOf(s, e.user))
            <==> SidsIn(s.sessions, e.user) == {} && (e.SetOnline? || (e.Login? && IsBlank(e.sid)))
  {
    assert UserOk(s, e.user);
  }

  lemma OthersMulticast(s: Store, e: Event, r: Status, v: string)
    requires Canonical(e.user) && v != e.user
    ensures v in Step(s, e, r).multicast <==> v in s.multicast
  {
  }

  lemma OthersConnected(s: Store, e: Event, r: Status)
    requires Canonical(e.user) && Connected(s)
    ensures var s' := Step(s, e, r);
            Connected(s') <==> (e.user in s'.multicast ==> SidsIn(s'.sessions, e.user) != {})
  {
    var s' := Step(s, e, r);
    forall v | Canonical(v) && v != e.user && v in s'.multicast
      ensures SidsIn(s'.sessions, v) != {}
    {
      StepSids(s, e, r);
      OthersMulticast(s, e, r, v);
    }
  }

  lemma LoginMeaning(s: Store, u: string, sid: string)
    requires Canonical(u) && !IsBlank(sid)
    ensures var s' := Step(s, Login(u, sid, false), Available);
            && s'.kind == s.kind && StatusOf(s', u) == Available && u in s'.multicast
            && SidsIn(s'.sessions, u) == Added(s.kind, SidsIn(s.sessions, u), sid)
  {
    StepSids(s, Login(u, sid, false), Available);
  }

  /**
    Two logins of a user and the end of the first session: with every session listed he stays
    connected; the Redis database, which keeps the second one only, takes him offline.
  */
  lemma EndOfOneOfTwoSessions(s: Store, u: string, a: string, b: string, socket: bool)
    requires Canonical(u) && !IsBlank(a) && !IsBlank(b) && a != b && SidsIn(s.sessions, u) == {}
    ensures var s1 := Step(s, Login(u, a, false), Available);
            var s2 := Step(s1, Login(u, b, false), Available);
            var s3 := Step(s2, Disconnect(u, a, socket), Available);
            && u in s1.multicast && u in s2.multicast
            && (u in s3.multicast <==> s.kind.Every?)
            && StatusOf(s3, u) == (if s.kind.Every? then Available else Unavailable)
            && SidsIn(s3.sessions, u) == (if s.kind.Every? then {b} else {})
  {
    var s1 := Step(s, Login(u, a, false), Available);
    var s2 := Step(s1, Login(u, b, false), Available);
    LoginMeaning(s, u, a);
    LoginMeaning(s1, u, b);
    StepSids(s2, Disconnect(u, a, socket), Available);
    EndOfOneOfTwo(s2.kind, a, b, socket);
  }

  lemma EndOfOneOfTwo(kind: Kind, a: string, b: string, socket: bool)
    requires a != b
    ensures Ended(kind, Added(kind, Added(kind, {}, a), b), a, socket)
            == if kind.Every? then ({b}, false) else ({}, true)
  {
    if kind.Every? {
      LastSessionEnds({a, b}, a, socket);
      assert {} + {a} + {b} == {a, b} && {a, b} - {a} == {b} && b in {b};
    } else {
      AnySessionEnds({b}, a, socket);
    }
  }

  // ----- Nodes with memories -----

  /** Redis and the status copies of each node. */
  datatype Cluster = Cluster(store: Store, memories: seq<map<string, Status>>)

  function Read(s: Store, memory: map<string, Status>, u: string): Status {
    if u in memory then memory[u] else StatusOf(s, u)
  }

  /** A miss is filled from Redis; an absent status is not. */
  function Remember(s: Store, memory: map<string, Status>, u: string): map<string, Status> {
    if u in memory || u !in s.status then memory else memory[u := s.status[u]]
  }

  /** The memory after a handler ran: the status it read, or the one it wrote. */
  function MemoryAfter(s: Store, memory: map<string, Status>, e: Event): map<string, Status> {
    var a := Decide(e, Read(s, memory, e.user), e.user in s.multicast, Gone(s, e));
    var m := Remember(s, memory, e.user);
    if Written(a).Some? then m[e.user := Written(a).value] else m
  }

  /**
    What a node remembers after a handler: of its user the status in Redis, or else the copy it acted on
    when it changed nothing; of the others what it did before.
  */
  lemma MemoryMeaning(s: Store, memory: map<string, Status>, e: Event)
    requires Canonical(e.user)
    ensures var u := e.user;
            var r := Read(s, memory, u);
            var s', m := Step(s, e, r), MemoryAfter(s, memory, e);
            && (u in m <==> u in memory || u in s'.status)
            && (u in m ==> m[u] == StatusOf(s', u) || (m[u] == r && StatusOf(s', u) == StatusOf(s, u)))
            && (e.Login? || e.SetOnline? || e.SetOffline? ==> u in m && m[u] == StatusOf(s', u))
            && (forall v :: v != u ==> (v in m <==> v in memory) && (v in memory ==> m[v] == memory[v]))
  {
  }

  /** A handler runs on a node, or a node forgets a copy that timed out. */
  datatype Move = Handle(node: nat, event: Event) | Forget(node: nat, user: string)

  predicate Enabled(c: Cluster, m: Move) {
    m.node < |c.memories| && (m.Handle? ==> Canonical(m.event.user))
  }

  function Next(c: Cluster, m: Move): Cluster
    requires Enabled(c, m)
  {
    var memory := c.memories[m.node];
    match m
    case Handle(n, e) =>
      Cluster(Step(c.store, e, Read(c.store, memory, e.user)),
              c.memories[n := MemoryAfter(c.store, memory, e)])
    case Forget(n, u) => c.(memories := c.memories[n := memory - {u}])
  }

  /** A node that forgets a copy loses just that one, and no other node or table changes. */
  lemma ForgetMeaning(c: Cluster, n: nat, u: string)
    requires n < |c.memories|
    ensures var c' := Next(c, Forget(n, u));
            && c'.store == c.store && |c'.memories| == |c.memories| && u !in c'.memories[n]
            && (forall v :: v != u ==> (v in c'.memories[n] <==> v in c.memories[n]))
            && (forall v :: v in c'.memories[n] ==> c'.memories[n][v] == c.memories[n][v])
            && forall m :: 0 <= m < |c.memories| && m != n ==> c'.memories[m] == c.memories[m]
  {
  }

  /** The status that the handler of a move reads on its node. */
  function ReadBy(c: Cluster, m: Move): Status
    requires Enabled(c, m) && m.Handle?
  {
    Read(c.store, c.memories[m.node], m.event.user)
  }

  /** A run: any events on any nodes. */
  ghost predicate IsRun(c: Cluster, moves: seq<Move>)
    decreases |moves|
  {
    moves != [] ==> Enabled(c, moves[0]) && IsRun(Next(c, moves[0]), moves[1..])
  }

  function After(c: Cluster, moves: seq<Move>): Cluster
    requires IsRun(c, moves)
    decreases |moves|
  {
    if moves == [] then c else After(Next(c, moves[0]), moves[1..])
  }

  /** A longer run takes one more step from where the shorter one ends. */
  lemma {:induction false} AfterOneMore(c: Cluster, moves: seq<Move>, move: Move)
    requires IsRun(c, moves) && Enabled(After(c, moves), move)
    ensures IsRun(c, moves + [move]) && After(c, moves + [move]) == Next(After(c, moves), move)
    decreases |moves|
  {
    if moves == [] {
      assert moves + [move] == [move] && [move][1..] == [];
    } else {
      AfterOneMore(Next(c, moves[0]), moves[1..], move);
      assert (moves + [move])[1..] == moves[1..] + [move];
    }
  }

  /** Over every run the Redis database keeps at most one session of a user. */
  lemma {:induction false} RunKeepsOneEach(c: Cluster, moves: seq<Move>)
    requires OneEach(c.store) && IsRun(c, moves)
    ensures OneEach(After(c, moves).store)
    decreases |moves|
  {
    if moves != [] {
      if moves[0].Handle? {
        StepKeepsOneEach(c.store, moves[0].event, ReadBy(c, moves[0]));
      }
      RunKeepsOneEach(Next(c, moves[0]), moves[1..]);
    }
  }

  /** The presence data are consistent in every state of the run. */
  ghost predicate InvThroughout(c: Cluster, moves: seq<Move>)
    requires IsRun(c, moves)
    decreases |moves|
  {
    Inv(c.store) && (moves != [] ==> InvThroughout(Next(c, moves[0]), moves[1..]))
  }

  predicate MoveFits(c: Cluster, m: Move)
    requires Enabled(c, m)
  {
    m.Handle? ==> Fits(m.event, ReadBy(c, m), StatusOf(c.store, m.event.user), Gone(c.store, m.event))
  }

  /** Every handler of the run reads a status that fits the one in Redis. */
  ghost predicate AllFit(c: Cluster, moves: seq<Move>)
    requires IsRun(c, moves)
    decreases |moves|
  {
    moves != [] ==> MoveFits(c, moves[0]) && AllFit(Next(c, moves[0]), moves[1..])
  }

  /**
    Over every run, whatever the nodes: the presence data stay consistent if and only if each handler
    reads a status that fits the one in Redis.
  */
  lemma {:induction false} RunKeepsInvIff(c: Cluster, moves: seq<Move>)
    requires Inv(c.store) && IsRun(c, moves)
    ensures InvThroughout(c, moves) <==> AllFit(c, moves)
    decreases |moves|
  {
    if moves != [] {
      var m := moves[0];
      if m.Handle? {
        StepKeepsInvIff(c.store, m.event, ReadBy(c, m));
      }
      if Inv(Next(c, m).store) {
        RunKeepsInvIff(Next(c, m), moves[1..]);
      }
    }
  }

  /** A handler reads the true status, and an active user makes no login-stage change. */
  predicate ReadsTruth(c: Cluster, m: Move)
    requires Enabled(c, m)
  {
    m.Handle? ==>
      && ReadBy(c, m) == StatusOf(c.store, m.event.user)
      && !LoginStageWhileActive(m.event, StatusOf(c.store, m.event.user))
  }

  ghost predicate AllReadTruth(c: Cluster, moves: seq<Move>)
    requires IsRun(c, moves)
    decreases |moves|
  {
    moves != [] ==> ReadsTruth(c, moves[0]) && AllReadTruth(Next(c, moves[0]), moves[1..])
  }

  /** Runs on any nodes in which no handler acts on an outdated copy. */
  lemma {:induction false} TrueReadsFit(c: Cluster, moves: seq<Move>)
    requires IsRun(c, moves) && AllReadTruth(c, moves)
    ensures AllFit(c, moves)
    decreases |moves|
  {
    if moves != [] {
      var m := moves[0];
      if m.Handle? {
        TrueStatusFits(m.event, ReadBy(c, m), Gone(c.store, m.event));
      }
      TrueReadsFit(Next(c, m), moves[1..]);
    }
  }

  /** In every state of the run whoever is in multicast has a session. */
  ghost predicate ConnectedThroughout(c: Cluster, moves: seq<Move>)
    requires IsRun(c, moves)
    decreases |moves|
  {
    Connected(c.store) && (moves != [] ==> ConnectedThroughout(Next(c, moves[0]), moves[1..]))
  }

  ghost predicate NeverSessionless(c: Cluster, moves: seq<Move>)
    requires IsRun(c, moves)
    decreases |moves|
  {
    moves != [] ==>
      && (moves[0].Handle? ==> !Sessionless(c.store, moves[0].event, ReadBy(c, moves[0])))
      && NeverSessionless(Next(c, moves[0]), moves[1..])
  }

  /**
    Over every run, on any nodes and whatever the copies they act on: multicast holds users with sessions
    only, if and only if no handler puts a user without sessions into it.
  */
  lemma {:induction false} RunKeepsConnectedIff(c: Cluster, moves: seq<Move>)
    requires Connected(c.store) && IsRun(c, moves)
    ensures ConnectedThroughout(c, moves) <==> NeverSessionless(c, moves)
    decreases |moves|
  {
    if moves != [] {
      var m := moves[0];
      if m.Handle? {
        StepKeepsConnectedIff(c.store, m.event, ReadBy(c, m));
      }
      if Connected(Next(c, m).store) {
        RunKeepsConnectedIff(Next(c, m), moves[1..]);
      }
    }
  }

  /** No user without sessions is put online, or logs in with a blank one. */
  ghost predicate NobodyPutOnline(c: Cluster, moves: seq<Move>)
    requires IsRun(c, moves)
    decreases |moves|
  {
    moves != [] ==>
      && (moves[0].Handle? ==>
            var e := moves[0].event;
            SidsIn(c.store.sessions, e.user) == {} ==> !(e.SetOnline? || (e.Login? && IsBlank(e.sid))))
      && NobodyPutOnline(Next(c, moves[0]), moves[1..])
  }

  /** When handlers read the true status, only those two cases count. */
  lemma {:induction false} TrueReadsKeepConnectedIff(c: Cluster, moves: seq<Move>)
    requires Inv(c.store) && Connected(c.store) && IsRun(c, moves) && AllReadTruth(c, moves)
    ensures ConnectedThroughout(c, moves) <==> NobodyPutOnline(c, moves)
    decreases |moves|
  {
    if moves != [] {
      var m := moves[0];
      if m.Handle? {
        var r := ReadBy(c, m);
        StepKeepsInvIff(c.store, m.event, r);
        TrueStatusFits(m.event, r, Gone(c.store, m.event));
        StepKeepsConnectedIff(c.store, m.event, r);
        TrueStatusSessionless(c.store, m.event);
      }
      if Connected(Next(c, m).store) {
        TrueReadsKeepConnectedIff(Next(c, m), moves[1..]);
      }
    }
  }

  /** Each user's events all reach one node, and no active user makes a login-stage change. */
  ghost predicate StickyRun(c: Cluster, moves: seq<Move>, home: map<string, nat>)
    requires IsRun(c, moves)
    decreases |moves|
  {
    moves != [] ==>
      var m := moves[0];
      && (m.Handle? ==>
            && m.event.user in home && home[m.event.user] == m.node
            && !LoginStageWhileActive(m.event, StatusOf(c.store, m.event.user)))
      && StickyRun(Next(c, m), moves[1..], home)
  }

  /** The home node of a user remembers the true status or nothing. */
  ghost predicate HomeKnows(c: Cluster, home: map<string, nat>) {
    forall u :: u in home && home[u] < |c.memories| && u in c.memories[home[u]]
                ==> c.memories[home[u]][u] == StatusOf(c.store, u)
  }

  lemma HomeKnowsAfter(c: Cluster, m: Move, home: map<string, nat>)
    requires Enabled(c, m) && HomeKnows(c, home)
    requires m.Handle? ==> m.event.user in home && home[m.event.user] == m.node
    ensures HomeKnows(Next(c, m), home)
    ensures m.Handle? ==> ReadBy(c, m) == StatusOf(c.store, m.event.user)
  {
    var c' := Next(c, m);
    if m.Handle? {
      forall u | u in home && home[u] < |c'.memories| && u in c'.memories[home[u]]
        ensures c'.memories[home[u]][u] == StatusOf(c'.store, u)
      {
        StatusAfter(c.store, m.event, ReadBy(c, m), u);
        assert home[u] < |c.memories|;
      }
    }
  }

  /** A handler changes the status of its own user only. */
  lemma StatusAfter(s: Store, e: Event, r: Status, v: string)
    requires Canonical(e.user)
    ensures var written := Written(Decide(e, r, e.user in s.multicast, Gone(s, e)));
            StatusOf(Step(s, e, r), v)
            == if v == e.user && written.Some? then written.value else StatusOf(s, v)
  {
  }

  lemma {:induction false} StickyReadsTruth(c: Cluster, moves: seq<Move>, home: map<string, nat>)
    requires IsRun(c, moves) && StickyRun(c, moves, home) && HomeKnows(c, home)
    ensures AllReadTruth(c, moves)
    decreases |moves|
  {
    if moves != [] {
      HomeKnowsAfter(c, moves[0], home);
      StickyReadsTruth(Next(c, moves[0]), moves[1..], home);
    }
  }

  /** So a user whose events all reach one node has consistent presence data. */
  lemma StickyRunsKeepInv(c: Cluster, moves: seq<Move>, home: map<string, nat>)
    requires Inv(c.store) && HomeKnows(c, home) && IsRun(c, moves) && StickyRun(c, moves, home)
    ensures InvThroughout(c, moves)
  {
    StickyReadsTruth(c, moves, home);
    TrueReadsFit(c, moves);
    RunKeepsInvIff(c, moves);
  }

  /**
    Without that a node acts on an outdated copy: a user logs in on one node, goes offline through
    another, and the first node then marks him away.
  */
  lemma OutdatedCopyBreaksInv(kind: Kind, u: string, sid: string)
    requires Canonical(u)
    ensures var c0 := Cluster(Nobody(kind), [map[], map[]]);
            var c1 := Next(c0, Handle(0, Login(u, sid, false)));
            var c2 := Next(c1, Handle(1, SetOffline(u)));
            var c3 := Next(c2, Handle(0, SetAway(u)));
            Inv(c0.store) && Inv(c1.store) && Inv(c2.store) && !Inv(c3.store)
  {
    var c0 := Cluster(Nobody(kind), [map[], map[]]);
    var c1 := Next(c0, Handle(0, Login(u, sid, false)));
    var c2 := Next(c1, Handle(1, SetOffline(u)));
    StepKeepsInvIff(c0.store, Login(u, sid, false), Unavailable);
    StepKeepsInvIff(c1.store, SetOffline(u), Available);
    assert c2.memories[0][u] == Available && StatusOf(c2.store, u) == Unavailable;
    StepKeepsInvIff(c2.store, SetAway(u), Available);
  }

  /**
    An outdated copy can also put a user into multicast who has no session, while all else stays
    consistent: he logs in and goes away on one node, his session ends through another, and the first
    node then takes him for back.
  */
  lemma OutdatedCopyConnectsNobody(kind: Kind, u: string, sid: string, socket: bool)
    requires Canonical(u) && !IsBlank(sid)
    ensures var c0 := Cluster(Nobody(kind), [map[], map[]]);
            var c1 := Next(c0, Handle(0, Login(u, sid, false)));
            var c2 := Next(c1, Handle(0, SetAway(u)));
            var c3 := Next(c2, Handle(1, Disconnect(u, sid, socket)));
            var c4 := Next(c3, Handle(0, SetBack(u)));
            && u !in c3.store.multicast && u in c4.store.multicast
            && SidsIn(c4.store.sessions, u) == {} && !Connected(c4.store) && Inv(c4.store)
  {
    var c0 := Cluster(Nobody(kind), [map[], map[]]);
    var c1 := Next(c0, Handle(0, Login(u, sid, false)));
    var c2 := Next(c1, Handle(0, SetAway(u)));
    AwayOnFirst(kind, u, sid);
    BackWithoutSession(c2, u, sid, socket);
  }

  /** One node remembers that the user is away, and another one nothing. */
  predicate AwayInMemory(c: Cluster, u: string) {
    |c.memories| == 2 && u in c.memories[0] && c.memories[0][u] == Away && u !in c.memories[1]
  }

  lemma AwayOnFirst(kind: Kind, u: string, sid: string)
    requires Canonical(u) && !IsBlank(sid)
    ensures var c1 := Next(Cluster(Nobody(kind), [map[], map[]]), Handle(0, Login(u, sid, false)));
            var c2 := Next(c1, Handle(0, SetAway(u)));
            && Inv(c2.store) && StatusOf(c2.store, u) == Away && SidsIn(c2.store.sessions, u) == {sid}
            && AwayInMemory(c2, u)
  {
    var c0 := Cluster(Nobody(kind), [map[], map[]]);
    var c1 := Next(c0, Handle(0, Login(u, sid, false)));
    FirstLogin(kind, u, sid);
    assert ReadBy(c1, Handle(0, SetAway(u))) == Available;
    StepSids(c1.store, SetAway(u), Available);
    StepKeepsInvIff(c1.store, SetAway(u), Available);
  }

  lemma FirstLogin(kind: Kind, u: string, sid: string)
    requires Canonical(u) && !IsBlank(sid)
    ensures var c1 := Next(Cluster(Nobody(kind), [map[], map[]]), Handle(0, Login(u, sid, false)));
            && Inv(c1.store) && StatusOf(c1.store, u) == Available && SidsIn(c1.store.sessions, u) == {sid}
            && |c1.memories| == 2 && u in c1.memories[0] && c1.memories[0][u] == Available && u !in c1.memories[1]
  {
    var login := Login(u, sid, false);
    assert SidsIn(Nobody(kind).sessions, u) == {} && {} + {sid} == {sid};
    StepSids(Nobody(kind), login, Unavailable);
    StepKeepsInvIff(Nobody(kind), login, Unavailable);
  }

  lemma BackWithoutSession(c: Cluster, u: string, sid: string, socket: bool)
    requires Canonical(u) && Inv(c.store) && StatusOf(c.store, u) == Away && SidsIn(c.store.sessions, u) == {sid}
    requires AwayInMemory(c, u)
    ensures var c' := Next(c, Handle(1, Disconnect(u, sid, socket)));
            var c'' := Next(c', Handle(0, SetBack(u)));
            && u !in c'.store.multicast && u in c''.store.multicast
            && SidsIn(c''.store.sessions, u) == {} && !Connected(c''.store) && Inv(c''.store)
  {
    var c' := Next(c, Handle(1, Disconnect(u, sid, socket)));
    OnlySessionEnds(c.store.kind, sid, socket);
    StepSids(c.store, Disconnect(u, sid, socket), Away);
    StepSids(c'.store, SetBack(u), Away);
    StepKeepsInvIff(c.store, Disconnect(u, sid, socket), Away);
    StepKeepsInvIff(c'.store, SetBack(u), Away);
  }

  lemma OnlySessionEnds(kind: Kind, sid: string, socket: bool)
    ensures Ended(kind, {sid}, sid, socket) == ({}, true)
  {
    if kind.Every? {
      LastSessionEnds({sid}, sid, socket);
      assert {sid} - {sid} == {};
    } else {
      AnySessionEnds({sid}, sid, socket);
    }
  }

  // ----- One node's code -----

  /** The cache object of a node together with the Redis data it works on. */
  class CacheRedis {
    const tables: SessionTables
    var memory: map<string, Status>
    var bitmap: set<nat>
    var online: set<string>
    var multicast: set<string>
    var status: map<string, Status>

    constructor (tables: SessionTables)
      requires tables.View() == {}
      ensures this.tables == tables && View() == Nobody(tables.kind) && memory == map[]
    {
      this.tables := tables;
      memory, bitmap, online, multicast, status := map[], {}, {}, {}, map[];
    }

    function View(): Store
      reads this, tables, tables.index
    {
      Store(tables.kind, tables.View(), bitmap, online, multicast, status)
    }

    method GetUserStatus(u: string) returns (r: Status)
      modifies this`memory
      ensures r == Read(View(), old(memory), u) && memory == Remember(View(), old(memory), u)
    {
      if u in memory {
        return memory[u];
      }
      if u !in status {
        return Unavailable;
      }
      memory := memory[u := status[u]];
      r := status[u];
    }

    method SetUserOnline(u: string)
      requires Canonical(u)
      modifies this
      ensures View() == Apply(old(View()), u, GoOnline) && memory == old(memory)[u := Available]
    {
      memory := memory[u := Available];
      bitmap := bitmap + {Bit(u)};
      online := online + {u};
      multicast := multicast + {u};
      status := status[u := Available];
    }

    method SetUserOffline(u: string)
      requires Canonical(u)
      modifies this
      ensures View() == Apply(old(View()), u, GoOffline) && memory == old(memory)[u := Unavailable]
    {
      memory := memory[u := Unavailable];
      bitmap := bitmap - {Bit(u)};
      online := online - {u};
      multicast := multicast - {u};
      status := status[u := Unavailable];
    }

    method SetUserInvisible(u: string)
      requires Canonical(u)
      modifies this
      ensures View() == Apply(old(View()), u, GoInvisible) && memory == old(memory)[u := Invisible]
    {
      memory := memory[u := Invisible];
      bitmap := bitmap - {Bit(u)};
      online := online - {u};
      multicast := multicast + {u};
      status := status[u := Invisible];
    }

    method SetUserStatusInvisible(u: string)
      requires Canonical(u)
      modifies this
      ensures View() == Apply(old(View()), u, MarkInvisible) && memory == old(memory)[u := Invisible]
    {
      memory := memory[u := Invisible];
      status := status[u := Invisible];
    }

    method SetUserAway(u: string)
      requires Canonical(u)
      modifies this
      ensures View() == Apply(old(View()), u, MarkAway) && memory == old(memory)[u := Away]
    {
      memory := memory[u := Away];
      status := status[u := Away];
    }

    method RemoveFromMulticastOnDisconnect(u: string)
      requires Canonical(u)
      modifies this`multicast
      ensures View() == Apply(old(View()), u, DropMulticast)
    {
      multicast := multicast - {u};
    }

    /** The login hook: the status first, then the session. */
    method OnLogin(u: string, sid: string, invisibleLogin: bool)
      requires Canonical(u) && ',' !in sid
      modifies this, tables, tables.index
      ensures Handled(old(View()), old(memory), Login(u, sid, invisibleLogin))
    {
      ghost var s, m := View(), memory;
      WithSameSids(tables.View(), u);
      var userStatus := GetUserStatus(u);
      if userStatus == Invisible || invisibleLogin {
        SetUserInvisible(u);
      } else {
        SetUserOnline(u);
      }
      assert View() == Apply(s, u, if userStatus == Invisible || invisibleLogin then GoInvisible else GoOnline);
      if !IsBlank(sid) {
        tables.AddSid(u, sid);
      }
      LoginStep(s, u, sid, invisibleLogin, userStatus);
    }

    /** The parts of a login may come in either order. */
    static lemma LoginStep(s: Store, u: string, sid: string, invisibleLogin: bool, r: Status)
      requires Canonical(u)
      ensures var e := Login(u, sid, invisibleLogin);
              Step(s, e, r)
              == Apply(s, u, if r == Invisible || invisibleLogin then GoInvisible else GoOnline)
                 .(sessions := WithSids(s.sessions, u, SidsAfter(s, e)))
    {
    }

    method OnSetAway(u: string) returns (changed: bool)
      requires Canonical(u)
      modifies this
      ensures Handled(old(View()), old(memory), SetAway(u))
      ensures changed <==> Read(old(View()), old(memory), u) == Available
    {
      WithSameSids(tables.View(), u);
      var userStatus := GetUserStatus(u);
      if userStatus == Available {
        SetUserAway(u);
        return true;
      }
      changed := false;
    }

    method OnSetBack(u: string) returns (changed: bool)
      requires Canonical(u)
      modifies this
      ensures Handled(old(View()), old(memory), SetBack(u))
      ensures changed <==> Read(old(View()), old(memory), u) == Away
    {
      WithSameSids(tables.View(), u);
      var userStatus := GetUserStatus(u);
      if userStatus == Away {
        SetUserOnline(u);
        return true;
      }
      changed := false;
    }

    method OnSetVisible(u: string)
      requires Canonical(u)
      modifies this
      ensures Handled(old(View()), old(memory), SetVisible(u))
    {
      WithSameSids(tables.View(), u);
      var userStatus := GetUserStatus(u);
      if userStatus == Available || userStatus == Chat {
        return;
      }
      if u in multicast {
        SetUserOnline(u);
      } else {
        SetUserOffline(u);
      }
    }

    method OnSetInvisible(u: string, stageLogin: bool)
      requires Canonical(u)
      modifies this
      ensures Handled(old(View()), old(memory), SetInvisible(u, stageLogin))
    {
      WithSameSids(tables.View(), u);
      var userStatus := GetUserStatus(u);
      if userStatus == Invisible {
        return;
      }
      var isOffline := true;
      if !stageLogin {
        var again := GetUserStatus(u);
        isOffline := !CountsAsOnline(again);
      }
      if isOffline {
        SetUserStatusInvisible(u);
      } else {
        SetUserInvisible(u);
      }
    }

    /** The part of the disconnect hook that works on the sessions. */
    method EndSession(u: string, sid: string, socket: bool) returns (gone: bool)
      requires Canonical(u) && Name(sid)
      modifies tables, tables.index
      ensures var e := Disconnect(u, sid, socket);
              && gone == Gone(old(View()), e)
              && View() == old(View()).(sessions := WithSids(old(View()).sessions, u, SidsAfter(old(View()), e)))
    {
      gone := tables.EndSession(u, sid, socket);
    }

    /** What the end of the last session takes along. */
    method LeaveOnline(u: string, userStatus: Status)
      requires Canonical(u)
      modifies this
      ensures View() == Apply(old(View()), u, if userStatus == Invisible then DropMulticast else GoOffline)
      ensures memory == if userStatus == Invisible then old(memory) else old(memory)[u := Unavailable]
    {
      if userStatus == Invisible {
        RemoveFromMulticastOnDisconnect(u);
      } else {
        SetUserOffline(u);
      }
    }

    /** The step of a disconnect in its parts. */
    static lemma DisconnectStep(s: Store, m: map<string, Status>, u: string, sid: string, socket: bool)
      requires Canonical(u)
      ensures var e := Disconnect(u, sid, socket);
              var r := Read(s, m, u);
              var ended := s.(sessions := WithSids(s.sessions, u, SidsAfter(s, e)));
              && Step(s, e, r) == (if !Gone(s, e) then ended
                                   else Apply(ended, u, if r == Invisible then DropMulticast else GoOffline))
              && MemoryAfter(s, m, e) == (if !Gone(s, e) || r == Invisible then Remember(s, m, u)
                                          else Remember(s, m, u)[u := Unavailable])
    {
    }

    /** The disconnect hook: the status first, then the sessions, and then what the last one takes along. */
    method OnDisconnect(u: string, sid: string, socket: bool)
      requires Canonical(u) && Name(sid)
      modifies this, tables, tables.index
      ensures Handled(old(View()), old(memory), Disconnect(u, sid, socket))
    {
      ghost var s, m, e := View(), memory, Disconnect(u, sid, socket);
      var userStatus := GetUserStatus(u);
      assert View() == s;
      var gone := EndSession(u, sid, socket);
      ghost var ended := View();
      if gone {
        LeaveOnline(u, userStatus);
        assert View() == Apply(ended, u, if userStatus == Invisible then DropMulticast else GoOffline);
      }
      DisconnectStep(s, m, u, sid, socket);
    }

    /** This object's data are what the handler of `e` makes of `s` and `m`. */
    ghost predicate Handled(s: Store, m: map<string, Status>, e: Event)
      requires Canonical(e.user)
      reads this, tables, tables.index
    {
      View() == Step(s, e, Read(s, m, e.user)) && memory == MemoryAfter(s, m, e)
    }
  }
}
