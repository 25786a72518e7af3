/**
  Rooms over time: users come and go, empty ephemeral rooms are removed at once or by a timer, and
  the parts of these actions interleave. Leaving a room, looking whether it is empty and removing it
  are three steps, between which anything may happen.
*/
module RoomLifecycle {
  import opened Rooms
  import Strings

  /** A departure whose check has not run yet; `delayed` for disconnects. */
  datatype Check = Check(leaver: string, room: string, delayed: bool)

  /** A removal two minutes from now, with what was true of the room when it was decided. */
  datatype Timer = Timer(channel: string, room: string, wasEphemeral: bool)

  /**
    A removal that was decided but has not reached the database, with what was true at the look: who
    was in the room, and who of them was discounted.
  */
  datatype Removal = Removal(channel: string, room: string, wasEphemeral: bool, found: set<string>,
                             discounted: set<string>)

  datatype State = State(db: Db, used: set<string>, checks: seq<Check>, timers: seq<Timer>, removals: seq<Removal>)

  datatype Step =
    | CreateStep(channel: string, room: string, name: string, ephemeral: bool)
    | RenameStep(channel: string, room: string, name: string)
    | AdminRemove(channel: string, room: string)
    | SetEphemeral(room: string, ephemeral: bool)
    | JoinStep(user: string, room: string)
    | LeaveStep(user: string, room: string, delayed: bool)  // leave hook or one round of the disconnect loop
    | KickStep(user: string, room: string)                  // leaves without a check
    | RunCheck(check: nat)                                  // the look after a departure
    | Fire(timer: nat)                                      // the look of a delayed removal
    | RemoveStep(removal: nat)
    | ForgetStep(user: string)                              // end of the disconnect hook

  predicate Enabled(s: State, step: Step) {
    match step
    case CreateStep(_, room, _, _) => room !in s.used
    case RunCheck(i) => i < |s.checks| && (s.checks[i].room in s.db.roomNames ==> s.checks[i].room in s.db.channelOf)
    case Fire(i) => i < |s.timers|
    case RemoveStep(i) => i < |s.removals|
    case _ => true
  }

  function Drop<T>(xs: seq<T>, i: nat): seq<T>
    requires i < |xs|
  {
    xs[..i] + xs[i + 1..]
  }

  function Next(s: State, step: Step, delayEnabled: bool): State
    requires Enabled(s, step)
  {
    match step
    case CreateStep(channel, room, name, ephemeral) =>
      s.(db := Create(s.db, channel, room, name, ephemeral).1, used := s.used + {room})
    case RenameStep(channel, room, name) => s.(db := Rename(s.db, channel, room, name).1)
    case AdminRemove(channel, room) => s.(db := Remove(s.db, channel, room).1)
    case SetEphemeral(room, ephemeral) =>
      if room !in s.used then s
      else s.(db := s.db.(nonEphemeral := if ephemeral then s.db.nonEphemeral - {room} else s.db.nonEphemeral + {room}))
    case JoinStep(user, room) => s.(db := Join(s.db, user, room).1)
    case LeaveStep(user, room, delayed) =>
      s.(db := Leave(s.db, user, room).1, checks := s.checks + [Check(user, room, delayed)])
    case KickStep(user, room) => s.(db := Leave(s.db, user, room).1)
    case RunCheck(i) =>
      var c := s.checks[i];
      var v := CheckEmpty(s.db, c.leaver, c.room, c.delayed, delayEnabled);
      s.(checks := Drop(s.checks, i),
         timers := if v.RemoveLater? then s.timers + [Timer(v.channel, c.room, Ephemeral(s.db, c.room))] else s.timers,
         removals := if v.RemoveNow? then s.removals + [Removal(v.channel, c.room, Ephemeral(s.db, c.room),
                                                                UsersIn(s.db, c.room), {c.leaver})]
                     else s.removals)
    case Fire(i) =>
      var t := s.timers[i];
      s.(timers := Drop(s.timers, i),
         removals := if StillEmpty(s.db, t.room)
                     then s.removals + [Removal(t.channel, t.room, t.wasEphemeral, UsersIn(s.db, t.room), {})]
                     else s.removals)
    case RemoveStep(i) =>
      s.(db := Remove(s.db, s.removals[i].channel, s.removals[i].room).1, removals := Drop(s.removals, i))
    case ForgetStep(user) => s.(db := Forget(s.db, user))
  }

  /** The disconnect hook forgets a user's rooms once he is in none that exists. */
  ghost predicate Orderly(s: State, step: Step) {
    step.ForgetStep? ==> forall room :: room in s.db.roomNames ==> (step.user, room) !in s.db.memberships
  }

  /** A timer was set for an ephemeral room, and knows the channel of the room while it exists. */
  ghost predicate TimerOk(s: State, t: Timer) {
    && t.wasEphemeral && t.room in s.used
    && (t.room in s.db.channelOf ==> s.db.channelOf[t.room] == t.channel)
  }

  /** A removal was decided for an ephemeral room with nobody in it but whom the look discounts. */
  ghost predicate RemovalOk(s: State, r: Removal) {
    && r.wasEphemeral && r.found <= r.discounted && r.room in s.used
    && (r.room in s.db.channelOf ==> s.db.channelOf[r.room] == r.channel)
  }

  /** Tables, names, timers and removals are in order. */
  ghost predicate StateSound(s: State) {
    && Sound(s.db, s.used)
    && (forall t :: t in s.timers ==> TimerOk(s, t))
    && forall r :: r in s.removals ==> RemovalOk(s, r)
  }

  /** So are the two member indexes. */
  ghost predicate StateOk(s: State) { StateSound(s) && TwoWay(s.db) }

  lemma StepKeepsTables(s: State, step: Step, delayEnabled: bool)
    requires StateSound(s) && Enabled(s, step)
    ensures Sound(Next(s, step, delayEnabled).db, Next(s, step, delayEnabled).used)
  {
    match step
    case CreateStep(channel, room, name, ephemeral) =>
      CreateKeepsSound(s.db, s.used, channel, room, name, ephemeral);
    case RenameStep(channel, room, name) => RenameKeepsSound(s.db, s.used, channel, room, name);
    case AdminRemove(channel, room) => RemoveKeepsSound(s.db, s.used, channel, room);
    case SetEphemeral(room, ephemeral) =>
    case JoinStep(user, room) => JoinLeaveKeepSound(s.db, s.used, user, room);
    case LeaveStep(user, room, _) => JoinLeaveKeepSound(s.db, s.used, user, room);
    case KickStep(user, room) => JoinLeaveKeepSound(s.db, s.used, user, room);
    case RunCheck(i) =>
    case Fire(i) =>
    case RemoveStep(i) => RemoveKeepsSound(s.db, s.used, s.removals[i].channel, s.removals[i].room);
    case ForgetStep(user) => ForgetKeepsSound(s.db, s.used, user);
  }

  /** Of all steps only clearing a list too early makes the member indexes differ. */
  lemma StepKeepsTwoWayIff(s: State, step: Step, delayEnabled: bool)
    requires StateOk(s) && Enabled(s, step)
    ensures TwoWay(Next(s, step, delayEnabled).db) <==> Orderly(s, step)
  {
    match step
    case CreateStep(channel, room, name, ephemeral) =>
      CreateKeepsTwoWay(s.db, s.used, channel, room, name, ephemeral);
    case RenameStep(channel, room, name) => RenameKeepsInv(s.db, s.used, channel, room, name);
    case AdminRemove(channel, room) => RemoveKeepsInv(s.db, s.used, channel, room);
    case SetEphemeral(room, ephemeral) =>
    case JoinStep(user, room) => JoinLeaveKeepInv(s.db, s.used, user, room);
    case LeaveStep(user, room, _) => JoinLeaveKeepInv(s.db, s.used, user, room);
    case KickStep(user, room) => JoinLeaveKeepInv(s.db, s.used, user, room);
    case RunCheck(i) =>
    case Fire(i) =>
    case RemoveStep(i) => RemoveKeepsInv(s.db, s.used, s.removals[i].channel, s.removals[i].room);
    case ForgetStep(user) =>
      ForgetKeepsInvIff(s.db, s.used, user);
      ForgetKeepsSound(s.db, s.used, user);
  }

  lemma OtherStepsKeepChannels(s: State, step: Step, delayEnabled: bool)
    requires Enabled(s, step) && !step.CreateStep? && !step.AdminRemove? && !step.RemoveStep?
    ensures Next(s, step, delayEnabled).db.channelOf == s.db.channelOf
    ensures Next(s, step, delayEnabled).used == s.used
  {
  }

  /** Rooms in use keep their channels, or go. */
  lemma ChannelsStay(s: State, step: Step, delayEnabled: bool)
    requires StateSound(s) && Enabled(s, step)
    ensures var s' := Next(s, step, delayEnabled);
            && s.used <= s'.used
            && forall room :: room in s.used && room in s'.db.channelOf
                              ==> room in s.db.channelOf && s'.db.channelOf[room] == s.db.channelOf[room]
  {
    if !step.CreateStep? && !step.AdminRemove? && !step.RemoveStep? {
      OtherStepsKeepChannels(s, step, delayEnabled);
    }
  }

  lemma NewTimerOk(s: State, i: nat, delayEnabled: bool)
    requires StateSound(s) && Enabled(s, RunCheck(i))
    ensures forall t :: t in Next(s, RunCheck(i), delayEnabled).timers && t !in s.timers ==> TimerOk(s, t)
    ensures forall r :: r in Next(s, RunCheck(i), delayEnabled).removals && r !in s.removals ==> RemovalOk(s, r)
  {
  }

  lemma NewRemovalOk(s: State, i: nat, delayEnabled: bool)
    requires StateSound(s) && Enabled(s, Fire(i))
    ensures forall r :: r in Next(s, Fire(i), delayEnabled).removals && r !in s.removals ==> RemovalOk(s, r)
  {
    assert TimerOk(s, s.timers[i]);
  }

  lemma StepKeepsSound(s: State, step: Step, delayEnabled: bool)
    requires StateSound(s) && Enabled(s, step)
    ensures StateSound(Next(s, step, delayEnabled))
  {
    StepKeepsTables(s, step, delayEnabled);
    ChannelsStay(s, step, delayEnabled);
    var s' := Next(s, step, delayEnabled);
    if step.RunCheck? {
      NewTimerOk(s, step.check, delayEnabled);
    } else if step.Fire? {
      NewRemovalOk(s, step.timer, delayEnabled);
    }
    forall t | t in s'.timers
      ensures TimerOk(s', t)
    {
      assert TimerOk(s, t);
    }
    forall r | r in s'.removals
      ensures RemovalOk(s', r)
    {
      assert RemovalOk(s, r);
    }
  }

  // ----- Runs -----

  ghost predicate IsRun(s: State, steps: seq<Step>, delayEnabled: bool)
    decreases |steps|
  {
    steps != [] ==>
      Enabled(s, steps[0]) && IsRun(Next(s, steps[0], delayEnabled), steps[1..], delayEnabled)
  }

  function After(s: State, steps: seq<Step>, delayEnabled: bool): State
    requires IsRun(s, steps, delayEnabled)
    decreases |steps|
  {
    if steps == [] then s else After(Next(s, steps[0], delayEnabled), steps[1..], delayEnabled)
  }

  function Start(channels: set<string>): State {
    State(Db(channels, map[], map[], map[], {}, {}, {}), {}, [], [], [])
  }

  /** Over every run tables, names, timers and removals stay in order. */
  lemma {:induction false} RunKeepsSound(s: State, steps: seq<Step>, delayEnabled: bool)
    requires StateSound(s) && IsRun(s, steps, delayEnabled)
    ensures StateSound(After(s, steps, delayEnabled))
    decreases |steps|
  {
    if steps != [] {
      StepKeepsSound(s, steps[0], delayEnabled);
      RunKeepsSound(Next(s, steps[0], delayEnabled), steps[1..], delayEnabled);
    }
  }

  ghost predicate OkThroughout(s: State, steps: seq<Step>, delayEnabled: bool)
    requires IsRun(s, steps, delayEnabled)
    decreases |steps|
  {
    StateOk(s) && (steps != [] ==> OkThroughout(Next(s, steps[0], delayEnabled), steps[1..], delayEnabled))
  }

  /** Every disconnect of the run clears its user's list when he is in no room that exists. */
  ghost predicate OrderlyThroughout(s: State, steps: seq<Step>, delayEnabled: bool)
    requires IsRun(s, steps, delayEnabled)
    decreases |steps|
  {
    steps != [] ==>
      Orderly(s, steps[0]) && OrderlyThroughout(Next(s, steps[0], delayEnabled), steps[1..], delayEnabled)
  }

  /** Over every run the two member indexes agree in all states if and only if no list is cleared too early. */
  lemma {:induction false} RunKeepsOkIff(s: State, steps: seq<Step>, delayEnabled: bool)
    requires StateOk(s) && IsRun(s, steps, delayEnabled)
    ensures OkThroughout(s, steps, delayEnabled) <==> OrderlyThroughout(s, steps, delayEnabled)
    decreases |steps|
  {
    if steps != [] {
      var s' := Next(s, steps[0], delayEnabled);
      StepKeepsSound(s, steps[0], delayEnabled);
      StepKeepsTwoWayIff(s, steps[0], delayEnabled);
      if TwoWay(s'.db) {
        RunKeepsOkIff(s', steps[1..], delayEnabled);
      }
    }
  }

  ghost predicate RoomGone(s: State, s': State, room: string) {
    room in s.db.roomNames && room !in s'.db.roomNames
  }

  lemma OtherStepsKeepRooms(s: State, step: Step, delayEnabled: bool)
    requires Enabled(s, step) && !step.RemoveStep? && !step.AdminRemove?
    ensures s.db.roomNames.Keys <= Next(s, step, delayEnabled).db.roomNames.Keys
  {
  }

  lemma RemovingStep(s: State, step: Step, delayEnabled: bool, room: string)
    requires StateSound(s) && Enabled(s, step) && room in s.db.roomNames && !step.AdminRemove?
    ensures RoomGone(s, Next(s, step, delayEnabled), room)
            <==> step.RemoveStep? && s.removals[step.removal].room == room
  {
    if step.RemoveStep? {
      var r := s.removals[step.removal];
      assert RemovalOk(s, r);
      RemoveKeepsSound(s.db, s.used, r.channel, r.room);
    } else {
      OtherStepsKeepRooms(s, step, delayEnabled);
    }
  }

  /**
    Over all interleavings: other than by the administrator, a room goes exactly by a decided removal,
    and that was decided when the room was ephemeral and a look found nobody in it, except perhaps the
    one whose departure was checked.
  */
  lemma OnlyEmptyRoomsAreRemoved(channels: set<string>, steps: seq<Step>, step: Step, delayEnabled: bool, room: string)
    requires IsRun(Start(channels), steps, delayEnabled)
    requires Enabled(After(Start(channels), steps, delayEnabled), step) && !step.AdminRemove?
    requires room in After(Start(channels), steps, delayEnabled).db.roomNames
    ensures var s := After(Start(channels), steps, delayEnabled);
            && (RoomGone(s, Next(s, step, delayEnabled), room)
                <==> step.RemoveStep? && s.removals[step.removal].room == room)
            && (step.RemoveStep? ==>
                  var r := s.removals[step.removal];
                  r.wasEphemeral && r.found <= r.discounted)
  {
    RunKeepsSound(Start(channels), steps, delayEnabled);
    var s := After(Start(channels), steps, delayEnabled);
    RemovingStep(s, step, delayEnabled, room);
    if step.RemoveStep? {
      assert RemovalOk(s, s.removals[step.removal]);
    }
  }

  /** The administrator's steps reach the tables; a created room's id counts as used. */
  lemma AdminSteps(s: State, channel: string, room: string, name: string, delayEnabled: bool)
    requires channel in s.db.channels && !Strings.IsBlank(name)
    ensures (channel, room) in s.db.listed && NameIsFree(s.db, channel, name) ==>
              Named(Next(s, RenameStep(channel, room, name), delayEnabled).db, channel, room, name)
    ensures (channel, room) in s.db.listed ==>
              room !in Next(s, AdminRemove(channel, room), delayEnabled).db.roomNames
    ensures forall flag :: room !in s.used && (channel, room) !in s.db.listed && NameIsFree(s.db, channel, name) ==>
              var s' := Next(s, CreateStep(channel, room, name, flag), delayEnabled);
              Named(s'.db, channel, room, name) && room in s'.used
  {
    RenameMeaning(s.db, channel, room, name);
    RemoveMeaning(s.db, channel, room);
    forall flag
      ensures room !in s.used && (channel, room) !in s.db.listed && NameIsFree(s.db, channel, name) ==>
                var s' := Next(s, CreateStep(channel, room, name, flag), delayEnabled);
                Named(s'.db, channel, room, name) && room in s'.used
    {
      CreateMeaning(s.db, channel, room, name, flag);
    }
  }

  /** Users come and go; a departure that is no kick leaves a check behind. */
  lemma UserSteps(s: State, user: string, room: string, delayed: bool, delayEnabled: bool)
    ensures UsersIn(Next(s, JoinStep(user, room), delayEnabled).db, room)
            == if room in s.db.roomNames then UsersIn(s.db, room) + {user} else {}
    ensures var s' := Next(s, LeaveStep(user, room, delayed), delayEnabled);
            && UsersIn(s'.db, room) == UsersIn(s.db, room) - {user}
            && s'.checks == s.checks + [Check(user, room, delayed)]
    ensures var s' := Next(s, KickStep(user, room), delayEnabled);
            UsersIn(s'.db, room) == UsersIn(s.db, room) - {user} && s'.checks == s.checks
  {
  }

  /** A check decides nothing, or sets a timer, or has the room removed; the tables it leaves alone. */
  lemma CheckDecides(s: State, i: nat, delayEnabled: bool)
    requires Enabled(s, RunCheck(i))
    ensures var c := s.checks[i];
            var s' := Next(s, RunCheck(i), delayEnabled);
            var empty, later := EmptyBut(s.db, c.leaver, c.room), c.delayed && delayEnabled;
            && s'.db == s.db && s'.checks == Drop(s.checks, i)
            && s'.timers == s.timers + (if empty && later then [Timer(s.db.channelOf[c.room], c.room, true)] else [])
            && s'.removals
               == s.removals + (if empty && !later
                                then [Removal(s.db.channelOf[c.room], c.room, true, UsersIn(s.db, c.room), {c.leaver})]
                                else [])
  {
    var c := s.checks[i];
    CheckMeaning(s.db, c.leaver, c.room, c.delayed, delayEnabled);
    assert s.timers + [] == s.timers && s.removals + [] == s.removals;
  }

  /** The look of a delayed removal has an empty room removed. */
  lemma TimerDecides(s: State, i: nat, delayEnabled: bool)
    requires Enabled(s, Fire(i))
    ensures var t := s.timers[i];
            var s' := Next(s, Fire(i), delayEnabled);
            && s'.db == s.db && s'.timers == Drop(s.timers, i)
            && s'.removals
               == s.removals + (if UsersIn(s.db, t.room) == {}
                                then [Removal(t.channel, t.room, t.wasEphemeral, {}, {})] else [])
  {
    assert s.removals + [] == s.removals;
  }

  /** The look of a delayed removal spares a room that somebody is in. */
  lemma RejoinedRoomSurvivesTimer(s: State, i: nat, delayEnabled: bool, user: string)
    requires Enabled(s, Fire(i)) && user in UsersIn(s.db, s.timers[i].room)
    ensures Next(s, Fire(i), delayEnabled) == s.(timers := Drop(s.timers, i))
  {
  }

  // ----- Between the look and the removal -----

  predicate Goes(step: Step, room: string, user: string) {
    (step.LeaveStep? || step.KickStep?) && step.room == room && step.user == user
  }

  /** The user leaves the room, or is kicked, somewhere along the steps. */
  predicate Leaves(steps: seq<Step>, room: string, user: string) {
    steps != [] && (Goes(steps[0], room, user) || Leaves(steps[1..], room, user))
  }

  /** The user joins the room along the steps and does not leave it again. */
  predicate JoinsAndStays(steps: seq<Step>, room: string, user: string) {
    steps != [] &&
    ((steps[0] == JoinStep(user, room) && !Leaves(steps[1..], room, user)) || JoinsAndStays(steps[1..], room, user))
  }

  /** No room comes back. */
  lemma RoomsOnlyGo(s: State, step: Step, delayEnabled: bool, room: string)
    requires StateSound(s) && Enabled(s, step) && StateSound(Next(s, step, delayEnabled))
    requires room in s.used && room in Next(s, step, delayEnabled).db.roomNames
    ensures room in s.db.roomNames && room in Next(s, step, delayEnabled).used
  {
    ChannelsStay(s, step, delayEnabled);
    assert room in Next(s, step, delayEnabled).db.channelOf;
  }

  lemma {:induction false} StillThere(s: State, steps: seq<Step>, delayEnabled: bool, room: string)
    requires StateSound(s) && IsRun(s, steps, delayEnabled) && room in s.used
    requires room in After(s, steps, delayEnabled).db.roomNames
    ensures room in s.db.roomNames
    decreases |steps|
  {
    if steps != [] {
      StepKeepsSound(s, steps[0], delayEnabled);
      ChannelsStay(s, steps[0], delayEnabled);
      StillThere(Next(s, steps[0], delayEnabled), steps[1..], delayEnabled, room);
      RoomsOnlyGo(s, steps[0], delayEnabled, room);
    }
  }

  lemma StepUsers(s: State, step: Step, delayEnabled: bool, room: string, user: string)
    requires Enabled(s, step) && room in s.db.roomNames && room in Next(s, step, delayEnabled).db.roomNames
    ensures user in UsersIn(Next(s, step, delayEnabled).db, room)
            <==> step == JoinStep(user, room) || (user in UsersIn(s.db, room) && !Goes(step, room, user))
  {
    var db' := Next(s, step, delayEnabled).db;
    assert user in UsersIn(s.db, room) <==> (room, user) in s.db.members;
    assert user in UsersIn(db', room) <==> (room, user) in db'.members;
  }

  /** Who is in a room later: those who joined and stayed, and those who were there and did not leave. */
  lemma {:induction false} UsersLater(s: State, steps: seq<Step>, delayEnabled: bool, room: string, user: string)
    requires StateSound(s) && IsRun(s, steps, delayEnabled) && room in s.db.roomNames
    requires room in After(s, steps, delayEnabled).db.roomNames
    ensures user in UsersIn(After(s, steps, delayEnabled).db, room)
            <==> JoinsAndStays(steps, room, user) || (user in UsersIn(s.db, room) && !Leaves(steps, room, user))
    decreases |steps|
  {
    if steps != [] {
      var s' := Next(s, steps[0], delayEnabled);
      StepKeepsSound(s, steps[0], delayEnabled);
      assert room in s'.used;
      StillThere(s', steps[1..], delayEnabled, room);
      StepUsers(s, steps[0], delayEnabled, room, user);
      UsersLater(s', steps[1..], delayEnabled, room, user);
    }
  }

  /**
    A removal by a timer takes the room from under a user if and only if he joined between the look and
    the removal and did not leave again.
  */
  lemma TimerRemovesRoomUnderIff(s: State, i: nat, between: seq<Step>, delayEnabled: bool, user: string)
    requires StateSound(s) && Enabled(s, Fire(i)) && s.timers[i].room in s.db.roomNames
    requires StillEmpty(s.db, s.timers[i].room)
    requires IsRun(Next(s, Fire(i), delayEnabled), between, delayEnabled)
    requires s.timers[i].room in After(Next(s, Fire(i), delayEnabled), between, delayEnabled).db.roomNames
    ensures var room := s.timers[i].room;
            user in UsersIn(After(Next(s, Fire(i), delayEnabled), between, delayEnabled).db, room)
            <==> JoinsAndStays(between, room, user)
  {
    StepKeepsSound(s, Fire(i), delayEnabled);
    UsersLater(Next(s, Fire(i), delayEnabled), between, delayEnabled, s.timers[i].room, user);
  }

  /**
    A removal that a check decided takes the room from under a user if and only if he joined since the
    look and did not leave again, or is the one discounted, was in the room at the look, and has not left.
  */
  lemma CheckRemovesRoomUnderIff(s: State, i: nat, between: seq<Step>, delayEnabled: bool, user: string)
    requires StateSound(s) && Enabled(s, RunCheck(i))
    requires var c := s.checks[i]; CheckEmpty(s.db, c.leaver, c.room, c.delayed, delayEnabled).RemoveNow?
    requires IsRun(Next(s, RunCheck(i), delayEnabled), between, delayEnabled)
    requires s.checks[i].room in After(Next(s, RunCheck(i), delayEnabled), between, delayEnabled).db.roomNames
    ensures var room, leaver := s.checks[i].room, s.checks[i].leaver;
            user in UsersIn(After(Next(s, RunCheck(i), delayEnabled), between, delayEnabled).db, room)
            <==> || JoinsAndStays(between, room, user)
                 || (user == leaver && user in UsersIn(s.db, room) && !Leaves(between, room, user))
  {
    var room, leaver := s.checks[i].room, s.checks[i].leaver;
    StepKeepsSound(s, RunCheck(i), delayEnabled);
    UsersLater(Next(s, RunCheck(i), delayEnabled), between, delayEnabled, room, user);
    assert user in UsersIn(s.db, room) && user != leaver ==> user in UsersIn(s.db, room) - {leaver};
  }

  /** The last change of a room's ephemeral flag along the steps. */
  function LastFlag(steps: seq<Step>, room: string): Strings.Option<bool> {
    if steps == [] then Strings.None
    else
      var later := LastFlag(steps[1..], room);
      if later.Some? then later
      else if steps[0].SetEphemeral? && steps[0].room == room then Strings.Some(steps[0].ephemeral)
      else Strings.None
  }

  lemma StepFlag(s: State, step: Step, delayEnabled: bool, room: string)
    requires KnownIds(s.db, s.used) && Enabled(s, step) && room in s.db.roomNames
    requires room in Next(s, step, delayEnabled).db.roomNames
    ensures Ephemeral(Next(s, step, delayEnabled).db, room)
            == if step.SetEphemeral? && step.room == room then step.ephemeral else Ephemeral(s.db, room)
  {
    match step
    case RemoveStep(i) => RemoveKeepsFlag(s.db, s.removals[i].channel, s.removals[i].room, room);
    case AdminRemove(channel, gone) => RemoveKeepsFlag(s.db, channel, gone, room);
    case CreateStep(channel, new', name, ephemeral) =>
      CreateKeepsFlag(s.db, s.used, channel, new', name, ephemeral, room);
    case SetEphemeral(_, _) => assert room in s.used;
    case _ => OtherStepsKeepFlags(s, step, delayEnabled);
  }

  lemma RemoveKeepsFlag(db: Db, channel: string, gone: string, room: string)
    requires room in Remove(db, channel, gone).1.roomNames
    ensures Ephemeral(Remove(db, channel, gone).1, room) <==> Ephemeral(db, room)
  {
  }

  lemma CreateKeepsFlag(db: Db, used: set<string>, channel: string, new': string, name: string, ephemeral: bool,
                        room: string)
    requires KnownIds(db, used) && new' !in used && room in db.roomNames
    ensures Ephemeral(Create(db, channel, new', name, ephemeral).1, room) <==> Ephemeral(db, room)
  {
  }

  lemma OtherStepsKeepFlags(s: State, step: Step, delayEnabled: bool)
    requires Enabled(s, step) && !step.RemoveStep? && !step.AdminRemove? && !step.CreateStep? && !step.SetEphemeral?
    ensures Next(s, step, delayEnabled).db.nonEphemeral == s.db.nonEphemeral
  {
  }

  /** The flag of a room that remains is what it was last set to, or else the old one. */
  lemma {:induction false} FlagLater(s: State, steps: seq<Step>, delayEnabled: bool, room: string)
    requires StateSound(s) && IsRun(s, steps, delayEnabled) && room in s.db.roomNames
    requires room in After(s, steps, delayEnabled).db.roomNames
    ensures Ephemeral(After(s, steps, delayEnabled).db, room)
            == if LastFlag(steps, room).Some? then LastFlag(steps, room).value else Ephemeral(s.db, room)
    decreases |steps|
  {
    if steps != [] {
      var s' := Next(s, steps[0], delayEnabled);
      StepKeepsSound(s, steps[0], delayEnabled);
      assert room in s'.used;
      StillThere(s', steps[1..], delayEnabled, room);
      StepFlag(s, steps[0], delayEnabled, room);
      FlagLater(s', steps[1..], delayEnabled, room);
    }
  }

  /**
    A room whose removal was decided, at once or by a timer, is permanent when it goes if and only if the
    last change of its flag since the check made it so.
  */
  lemma PermanentWhenRemovedIff(s: State, i: nat, between: seq<Step>, delayEnabled: bool)
    requires StateSound(s) && Enabled(s, RunCheck(i))
    requires var c := s.checks[i]; !CheckEmpty(s.db, c.leaver, c.room, c.delayed, delayEnabled).Keep?
    requires IsRun(Next(s, RunCheck(i), delayEnabled), between, delayEnabled)
    requires s.checks[i].room in After(Next(s, RunCheck(i), delayEnabled), between, delayEnabled).db.roomNames
    ensures var room := s.checks[i].room;
            !Ephemeral(After(Next(s, RunCheck(i), delayEnabled), between, delayEnabled).db, room)
            <==> LastFlag(between, room) == Strings.Some(false)
  {
    StepKeepsSound(s, RunCheck(i), delayEnabled);
    FlagLater(Next(s, RunCheck(i), delayEnabled), between, delayEnabled, s.checks[i].room);
  }

  // ----- What the code does not prevent -----

  /** A user who joins between the look of a delayed removal and the removal loses the room. */
  lemma JoinAfterLookLosesRoom(db: Db, used: set<string>, user: string, room: string)
    requires Inv(db, used) && room in db.roomNames && UsersIn(db, room) == {}
    ensures var s0 := State(db, used, [], [Timer(db.channelOf[room], room, true)], []);
            var s1 := Next(s0, Fire(0), true);
            var s2 := Next(s1, JoinStep(user, room), true);
            Enabled(s2, RemoveStep(0)) && user in UsersIn(s2.db, room)
            && room !in Next(s2, RemoveStep(0), true).db.roomNames
  {
    var s0 := State(db, used, [], [Timer(db.channelOf[room], room, true)], []);
    var s1 := Next(s0, Fire(0), true);
    var s2 := Next(s1, JoinStep(user, room), true);
    assert s2.removals == [Removal(db.channelOf[room], room, true, {}, {})];
    JoinLeaveUsers(db, user, room, room);
    JoinLeaveKeepInv(db, used, user, room);
    RemoveKeepsInv(s2.db, used, db.channelOf[room], room);
  }

  /**
    The check discounts the one who left even if he has come back in between: alone in the room
    again, he loses it.
  */
  lemma LeaverWhoCameBackLosesRoom(db: Db, used: set<string>, user: string, room: string)
    requires Inv(db, used) && room in db.roomNames && Ephemeral(db, room) && UsersIn(db, room) == {user}
    ensures var s0 := State(db, used, [], [], []);
            var s1 := Next(s0, LeaveStep(user, room, false), true);
            var s2 := Next(s1, JoinStep(user, room), true);
            && user in UsersIn(s2.db, room) && Enabled(s2, RunCheck(0))
            && var s3 := Next(s2, RunCheck(0), true);
               user in UsersIn(s3.db, room) && Enabled(s3, RemoveStep(0))
               && room !in Next(s3, RemoveStep(0), true).db.roomNames
  {
    var s0 := State(db, used, [], [], []);
    var s1 := Next(s0, LeaveStep(user, room, false), true);
    var s2 := Next(s1, JoinStep(user, room), true);
    LeaveAndBack(db, used, user, room);
    assert s2 == State(Join(Leave(db, user, room).1, user, room).1, used, [Check(user, room, false)], [], []);
    CheckForgivesLeaver(s2, user, room);
  }

  lemma LeaveAndBack(db: Db, used: set<string>, user: string, room: string)
    requires Inv(db, used) && room in db.roomNames && UsersIn(db, room) == {user}
    ensures var db' := Join(Leave(db, user, room).1, user, room).1;
            && UsersIn(db', room) == {user} && room in db'.roomNames && room in db'.channelOf
            && (Ephemeral(db', room) <==> Ephemeral(db, room))
            && room !in Remove(db', db'.channelOf[room], room).1.roomNames
  {
    var db1 := Leave(db, user, room).1;
    var db' := Join(db1, user, room).1;
    JoinLeaveKeepInv(db, used, user, room);
    JoinLeaveKeepInv(db1, used, user, room);
    JoinLeaveUsers(db, user, room, room);
    JoinLeaveUsers(db1, user, room, room);
    RemoveKeepsInv(db', used, db'.channelOf[room], room);
  }

  lemma CheckForgivesLeaver(s: State, user: string, room: string)
    requires s.checks == [Check(user, room, false)] && s.removals == []
    requires room in s.db.roomNames && room in s.db.channelOf && Ephemeral(s.db, room) && UsersIn(s.db, room) == {user}
    ensures Next(s, RunCheck(0), true)
            == s.(checks := [], removals := [Removal(s.db.channelOf[room], room, true, {user}, {user})])
  {
  }

  /** A room made permanent while its timer runs is removed all the same. */
  lemma TimerIgnoresLaterPermanence(db: Db, used: set<string>, room: string)
    requires Inv(db, used) && room in db.roomNames && UsersIn(db, room) == {}
    ensures var s0 := State(db, used, [], [Timer(db.channelOf[room], room, true)], []);
            var s1 := Next(s0, SetEphemeral(room, false), true);
            var s2 := Next(s1, Fire(0), true);
            !Ephemeral(s2.db, room) && Enabled(s2, RemoveStep(0))
            && room !in Next(s2, RemoveStep(0), true).db.roomNames
  {
    var s0 := State(db, used, [], [Timer(db.channelOf[room], room, true)], []);
    var s1 := Next(s0, SetEphemeral(room, false), true);
    var s2 := Next(s1, Fire(0), true);
    assert UsersIn(s1.db, room) == UsersIn(db, room);
    assert s2.removals == [Removal(db.channelOf[room], room, true, {}, {})];
  }

  /** A disconnect that forgets rooms the user has rejoined meanwhile leaves the indexes apart. */
  lemma ForgettingTooMuchBreaksIndexes(s: State, user: string, room: string)
    requires StateOk(s) && room in s.db.roomNames && (user, room) in s.db.memberships
    ensures !TwoWay(Next(s, ForgetStep(user), true).db)
  {
    assert (room, user) in s.db.members;
  }
}
