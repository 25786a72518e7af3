/**
  The Redis tables of rooms: names, channels and members, with every index kept twice, and the
  operations that create, rename, remove, join and leave rooms.
*/
module Rooms {
  import opened Strings

  datatype Db = Db(
    channels: set<string>,
    roomNames: map<string, string>,               // room -> name
    listed: map<(string, string), string>,        // (channel, room) -> name
    channelOf: map<string, string>,               // room -> channel
    nonEphemeral: set<string>,
    members: set<(string, string)>,               // (room, user), by room
    memberships: set<(string, string)>)           // (user, room), by user

  datatype Result = Done | NoSuchChannel | EmptyRoomName | RoomExists | RoomNameExists | NoSuchRoom

  /** `room_name_exists`: any case. */
  predicate NameTaken(db: Db, channel: string, name: string) {
    exists key :: key in db.listed && key.0 == channel && LowerAll(db.listed[key]) == LowerAll(name)
  }

  /** `is_room_ephemeral` */
  predicate Ephemeral(db: Db, room: string) { room !in db.nonEphemeral }

  /** `users_in_room`: a room without a name has no users. */
  function UsersIn(db: Db, room: string): set<string> {
    if room !in db.roomNames then {} else set m | m in db.members && m.0 == room :: m.1
  }

  function Create(db: Db, channel: string, room: string, name: string, ephemeral: bool): (Result, Db) {
    if channel !in db.channels then (NoSuchChannel, db)
    else if IsBlank(name) then (EmptyRoomName, db)
    else if (channel, room) in db.listed then (RoomExists, db)
    else if NameTaken(db, channel, name) then (RoomNameExists, db)
    else (Done, db.(nonEphemeral := if ephemeral then db.nonEphemeral + {room} else db.nonEphemeral,
                    roomNames := db.roomNames[room := name],
                    listed := db.listed[(channel, room) := name],
                    channelOf := db.channelOf[room := channel]))
  }

  function Rename(db: Db, channel: string, room: string, name: string): (Result, Db) {
    if channel !in db.channels then (NoSuchChannel, db)
    else if IsBlank(name) then (EmptyRoomName, db)
    else if (channel, room) !in db.listed then (NoSuchRoom, db)
    else if NameTaken(db, channel, name) then (RoomNameExists, db)
    else (Done, db.(roomNames := db.roomNames[room := name], listed := db.listed[(channel, room) := name]))
  }

  /** Removing a room leaves its membership tables behind. */
  function Remove(db: Db, channel: string, room: string): (Result, Db) {
    if (channel, room) !in db.listed then (NoSuchRoom, db)
    else if channel !in db.channels then (NoSuchChannel, db)
    else (Done, db.(nonEphemeral := db.nonEphemeral - {room},
                    roomNames := db.roomNames - {room},
                    listed := db.listed - {(channel, room)},
                    channelOf := db.channelOf - {room}))
  }

  /** The join hook looks up the room's name first. */
  function Join(db: Db, user: string, room: string): (Result, Db) {
    if room !in db.roomNames then (NoSuchRoom, db)
    else (Done, db.(memberships := db.memberships + {(user, room)}, members := db.members + {(room, user)}))
  }

  function Leave(db: Db, user: string, room: string): (Result, Db) {
    if room !in db.roomNames then (NoSuchRoom, db)
    else (Done, db.(members := db.members - {(room, user)}, memberships := db.memberships - {(user, room)}))
  }

  /** `remove_current_rooms_for_user`: one of the two indexes only. */
  function Forget(db: Db, user: string): Db {
    db.(memberships := set m | m in db.memberships && m.0 != user)
  }

  // ----- Invariants -----

  /** For every existing room, the room lists the user exactly when the user lists the room. */
  ghost predicate TwoWay(db: Db) {
    forall room, user :: room in db.roomNames ==> ((room, user) in db.members <==> (user, room) in db.memberships)
  }

  /** A room is in a channel's table exactly when its own channel entry says so, under its global name. */
  ghost predicate TablesAgree(db: Db) {
    && db.channelOf.Keys == db.roomNames.Keys
    && (forall room :: room in db.channelOf ==>
          db.channelOf[room] in db.channels && (db.channelOf[room], room) in db.listed)
    && (forall key :: key in db.listed ==>
          key.1 in db.channelOf && db.channelOf[key.1] == key.0 && db.listed[key] == db.roomNames[key.1])
  }

  /** No two rooms of a channel share a name, in any case. */
  ghost predicate NamesUnique(db: Db) {
    forall a, b :: a in db.listed && b in db.listed && a.0 == b.0 && a != b
                   ==> LowerAll(db.listed[a]) != LowerAll(db.listed[b])
  }

  /** Rooms, members and memberships only speak of ids that were given out. */
  ghost predicate KnownIds(db: Db, used: set<string>) {
    && db.roomNames.Keys <= used && db.nonEphemeral <= used
    && (forall m :: m in db.members ==> m.0 in used)
    && (forall m :: m in db.memberships ==> m.1 in used)
  }

  /** Everything but the agreement of the two member indexes. */
  ghost predicate Sound(db: Db, used: set<string>) { TablesAgree(db) && NamesUnique(db) && KnownIds(db, used) }

  ghost predicate Inv(db: Db, used: set<string>) { TwoWay(db) && Sound(db, used) }

  lemma NameFree(db: Db, channel: string, name: string)
    requires !NameTaken(db, channel, name)
    ensures forall key :: key in db.listed && key.0 == channel ==> LowerAll(db.listed[key]) != LowerAll(name)
  {
  }

  /** Listing a free name keeps names unique, whether the room is new to the table or renamed. */
  lemma ListingKeepsNames(db: Db, db': Db, channel: string, room: string, name: string)
    requires NamesUnique(db) && !NameTaken(db, channel, name)
    requires db'.listed == db.listed[(channel, room) := name]
    ensures NamesUnique(db')
  {
    NameFree(db, channel, name);
  }

  lemma CreateKeepsTables(db: Db, used: set<string>, channel: string, room: string, name: string, ephemeral: bool)
    requires TablesAgree(db) && KnownIds(db, used) && room !in used
    ensures var db' := Create(db, channel, room, name, ephemeral).1;
            TablesAgree(db') && KnownIds(db', used + {room})
  {
  }

  lemma CreateKeepsSound(db: Db, used: set<string>, channel: string, room: string, name: string, ephemeral: bool)
    requires Sound(db, used) && room !in used
    ensures Sound(Create(db, channel, room, name, ephemeral).1, used + {room})
  {
    CreateKeepsTables(db, used, channel, room, name, ephemeral);
    var (r, db') := Create(db, channel, room, name, ephemeral);
    if r.Done? {
      ListingKeepsNames(db, db', channel, room, name);
    }
  }

  lemma CreateKeepsInv(db: Db, used: set<string>, channel: string, room: string, name: string, ephemeral: bool)
    requires Inv(db, used) && room !in used
    ensures Inv(Create(db, channel, room, name, ephemeral).1, used + {room})
  {
    CreateKeepsSound(db, used, channel, room, name, ephemeral);
    CreateKeepsTwoWay(db, used, channel, room, name, ephemeral);
  }

  lemma CreateKeepsTwoWay(db: Db, used: set<string>, channel: string, room: string, name: string, ephemeral: bool)
    requires TwoWay(db) && KnownIds(db, used) && room !in used
    ensures TwoWay(Create(db, channel, room, name, ephemeral).1)
  {
  }

  lemma RenameKeepsSound(db: Db, used: set<string>, channel: string, room: string, name: string)
    requires Sound(db, used)
    ensures Sound(Rename(db, channel, room, name).1, used)
    ensures Rename(db, channel, room, name).1.roomNames.Keys == db.roomNames.Keys
  {
    var (r, db') := Rename(db, channel, room, name);
    if r.Done? {
      ListingKeepsNames(db, db', channel, room, name);
    }
  }

  lemma RenameKeepsInv(db: Db, used: set<string>, channel: string, room: string, name: string)
    requires Inv(db, used)
    ensures Inv(Rename(db, channel, room, name).1, used)
  {
    RenameKeepsSound(db, used, channel, room, name);
  }

  lemma RemoveKeepsTables(db: Db, used: set<string>, channel: string, room: string)
    requires Sound(db, used)
    ensures var db' := Remove(db, channel, room).1;
            TablesAgree(db') && KnownIds(db', used)
  {
  }

  lemma RemoveKeepsSound(db: Db, used: set<string>, channel: string, room: string)
    requires Sound(db, used)
    ensures Sound(Remove(db, channel, room).1, used)
    ensures Remove(db, channel, room).0.Done? <==> room in db.roomNames && db.channelOf[room] == channel
  {
    RemoveKeepsTables(db, used, channel, room);
    var db' := Remove(db, channel, room).1;
    assert NamesUnique(db') by {
      assert forall key :: key in db'.listed ==> key in db.listed && db'.listed[key] == db.listed[key];
    }
  }

  lemma RemoveKeepsInv(db: Db, used: set<string>, channel: string, room: string)
    requires Inv(db, used)
    ensures Inv(Remove(db, channel, room).1, used)
    ensures Remove(db, channel, room).0.Done? <==> room in db.roomNames && db.channelOf[room] == channel
  {
    RemoveKeepsSound(db, used, channel, room);
  }

  lemma JoinLeaveKeepSound(db: Db, used: set<string>, user: string, room: string)
    requires Sound(db, used)
    ensures Sound(Join(db, user, room).1, used) && Sound(Leave(db, user, room).1, used)
  {
  }

  lemma JoinLeaveKeepInv(db: Db, used: set<string>, user: string, room: string)
    requires Inv(db, used)
    ensures Inv(Join(db, user, room).1, used) && Inv(Leave(db, user, room).1, used)
  {
    JoinLeaveKeepSound(db, used, user, room);
  }

  /** Joining and leaving add and take away exactly one user of one room. */
  lemma JoinLeaveUsers(db: Db, user: string, room: string, other: string)
    requires room in db.roomNames
    ensures UsersIn(Join(db, user, room).1, other) == UsersIn(db, other) + (if other == room then {user} else {})
    ensures UsersIn(Leave(db, user, room).1, other) == UsersIn(db, other) - (if other == room then {user} else {})
  {
    forall v
      ensures v in UsersIn(Join(db, user, room).1, other)
              <==> v in UsersIn(db, other) || (other == room && v == user)
      ensures v in UsersIn(Leave(db, user, room).1, other)
              <==> v in UsersIn(db, other) && !(other == room && v == user)
    {
      assert v in UsersIn(Join(db, user, room).1, other)
             <==> other in db.roomNames && (other, v) in Join(db, user, room).1.members;
      assert v in UsersIn(Leave(db, user, room).1, other)
             <==> other in db.roomNames && (other, v) in Leave(db, user, room).1.members;
      assert v in UsersIn(db, other) <==> other in db.roomNames && (other, v) in db.members;
    }
  }

  /** A room comes out ephemeral exactly when it was not asked to be. */
  lemma EphemeralFlagIsInverted(db: Db, used: set<string>, channel: string, room: string, name: string, ephemeral: bool)
    requires KnownIds(db, used) && room !in used
    requires Create(db, channel, room, name, ephemeral).0.Done?
    ensures Ephemeral(Create(db, channel, room, name, ephemeral).1, room) <==> !ephemeral
  {
    assert room !in db.nonEphemeral;
  }

  /** Forgetting a user's rooms is harmless exactly when he is in no existing room any more. */
  lemma ForgetKeepsInvIff(db: Db, used: set<string>, user: string)
    requires Inv(db, used)
    ensures Inv(Forget(db, user), used)
            <==> forall room :: room in db.roomNames ==> (user, room) !in db.memberships
  {
    var db' := Forget(db, user);
    if room :| room in db.roomNames && (user, room) in db.memberships {
      assert (room, user) in db'.members && (user, room) !in db'.memberships;
    }
  }

  lemma ForgetKeepsSound(db: Db, used: set<string>, user: string)
    requires Sound(db, used)
    ensures Sound(Forget(db, user), used)
  {
  }

  /** Renaming a room to its own name, in whatever case, is refused. */
  lemma OwnNameIsTaken(db: Db, channel: string, room: string, name: string)
    requires (channel, room) in db.listed && LowerAll(db.listed[(channel, room)]) == LowerAll(name)
    requires channel in db.channels && !IsBlank(name)
    ensures Rename(db, channel, room, name).0 == RoomNameExists
  {
    assert NameTaken(db, channel, name);
  }

  // ----- What the operations do -----

  /** No room of the channel has the name, in any case. */
  ghost predicate NameIsFree(db: Db, channel: string, name: string) {
    forall room :: (channel, room) in db.listed ==> LowerAll(db.listed[(channel, room)]) != LowerAll(name)
  }

  /** The tables speak of all rooms but one as before, and members and channels are untouched. */
  ghost predicate OtherRoomsSame(db: Db, db': Db, channel: string, room: string) {
    && (forall other :: other != room ==>
          && (other in db'.roomNames <==> other in db.roomNames)
          && (other in db.roomNames ==> db'.roomNames[other] == db.roomNames[other])
          && (other in db'.channelOf <==> other in db.channelOf)
          && (other in db.channelOf ==> db'.channelOf[other] == db.channelOf[other])
          && (other in db'.nonEphemeral <==> other in db.nonEphemeral))
    && (forall key :: key != (channel, room) ==>
          && (key in db'.listed <==> key in db.listed)
          && (key in db.listed ==> db'.listed[key] == db.listed[key]))
    && db'.members == db.members && db'.memberships == db.memberships && db'.channels == db.channels
  }

  predicate Named(db: Db, channel: string, room: string, name: string) {
    && room in db.roomNames && db.roomNames[room] == name
    && (channel, room) in db.listed && db.listed[(channel, room)] == name
  }

  lemma NameTakenIff(db: Db, channel: string, name: string)
    ensures NameTaken(db, channel, name) <==> !NameIsFree(db, channel, name)
  {
    if key :| key in db.listed && key.0 == channel && LowerAll(db.listed[key]) == LowerAll(name) {
      assert (channel, key.1) in db.listed;
    }
  }

  /** When a room is created, which error is raised otherwise, and what the tables then hold. */
  lemma CreateMeaning(db: Db, channel: string, room: string, name: string, ephemeral: bool)
    ensures var (r, db') := Create(db, channel, room, name, ephemeral);
            && (r == NoSuchChannel <==> channel !in db.channels)
            && (r == EmptyRoomName <==> channel in db.channels && IsBlank(name))
            && (r == RoomExists <==> channel in db.channels && !IsBlank(name) && (channel, room) in db.listed)
            && (r == Done <==> && channel in db.channels && !IsBlank(name) && (channel, room) !in db.listed
                               && NameIsFree(db, channel, name))
            && (r in {Done, NoSuchChannel, EmptyRoomName, RoomExists, RoomNameExists})
            && (r != Done ==> db' == db)
            && (r == Done ==>
                  && Named(db', channel, room, name) && room in db'.channelOf && db'.channelOf[room] == channel
                  && (room in db'.nonEphemeral <==> ephemeral || room in db.nonEphemeral)
                  && OtherRoomsSame(db, db', channel, room))
  {
    NameTakenIff(db, channel, name);
  }

  /** When a room is renamed, and that it is. */
  lemma RenameMeaning(db: Db, channel: string, room: string, name: string)
    ensures var (r, db') := Rename(db, channel, room, name);
            && (r == NoSuchChannel <==> channel !in db.channels)
            && (r == EmptyRoomName <==> channel in db.channels && IsBlank(name))
            && (r == NoSuchRoom <==> channel in db.channels && !IsBlank(name) && (channel, room) !in db.listed)
            && (r == Done <==> && channel in db.channels && !IsBlank(name) && (channel, room) in db.listed
                               && NameIsFree(db, channel, name))
            && (r in {Done, NoSuchChannel, EmptyRoomName, NoSuchRoom, RoomNameExists})
            && (r != Done ==> db' == db)
            && (r == Done ==>
                  && Named(db', channel, room, name) && OtherRoomsSame(db, db', channel, room)
                  && db'.channelOf == db.channelOf && db'.nonEphemeral == db.nonEphemeral)
  {
    NameTakenIff(db, channel, name);
  }

  /** When a room is removed, and that it goes from every table but those of the members. */
  lemma RemoveMeaning(db: Db, channel: string, room: string)
    ensures var (r, db') := Remove(db, channel, room);
            && (r == NoSuchRoom <==> (channel, room) !in db.listed)
            && (r == Done <==> (channel, room) in db.listed && channel in db.channels)
            && (r in {Done, NoSuchRoom, NoSuchChannel})
            && (r != Done ==> db' == db)
            && (r == Done ==>
                  && room !in db'.roomNames && (channel, room) !in db'.listed && room !in db'.channelOf
                  && room !in db'.nonEphemeral && OtherRoomsSame(db, db', channel, room))
  {
  }

  /** One room has gone from the tables, and nothing else has changed. */
  ghost predicate OnlyRoomGone(db: Db, db': Db, room: string) {
    && room in db.channelOf && room !in db'.roomNames && room !in db'.channelOf
    && (db.channelOf[room], room) !in db'.listed && OtherRoomsSame(db, db', db.channelOf[room], room)
  }

  /** Joining and leaving put the pair into both indexes or take it out of both; everything else stays. */
  lemma JoinLeaveMeaning(db: Db, user: string, room: string)
    ensures var (r, db') := Join(db, user, room);
            && (r == if room in db.roomNames then Done else NoSuchRoom) && (r != Done ==> db' == db)
            && (r == Done ==> db' == db.(members := db.members + {(room, user)},
                                         memberships := db.memberships + {(user, room)}))
    ensures var (r, db') := Leave(db, user, room);
            && (r == if room in db.roomNames then Done else NoSuchRoom) && (r != Done ==> db' == db)
            && (r == Done ==> db' == db.(members := db.members - {(room, user)},
                                         memberships := db.memberships - {(user, room)}))
    ensures var db' := Forget(db, user);
            && (forall m :: m in db'.memberships <==> m in db.memberships && m.0 != user)
            && db' == db.(memberships := db'.memberships)
    ensures forall u :: u in UsersIn(db, room) <==> room in db.roomNames && (room, u) in db.members
  {
    assert forall u :: (room, u) in db.members && room in db.roomNames ==> u in UsersIn(db, room);
  }

  // ----- Empty rooms -----

  /** What the check after a departure decides. */
  datatype Verdict = Keep | RemoveNow(channel: string) | RemoveLater(channel: string)

  /** `check_if_remove_room_empty`: the one who left is not counted, even if he is listed. */
  function CheckEmpty(db: Db, leaver: string, room: string, delayed: bool, delayEnabled: bool): Verdict
    requires room in db.roomNames ==> room in db.channelOf
  {
    if room !in db.roomNames then Keep
    else if !Ephemeral(db, room) then Keep
    else if UsersIn(db, room) - {leaver} != {} then Keep
    else if delayed && delayEnabled then RemoveLater(db.channelOf[room])
    else RemoveNow(db.channelOf[room])
  }

  /** The tables after the check acted on its verdict; a delayed removal comes later. */
  function Act(db: Db, room: string, v: Verdict): Db {
    if v.RemoveNow? then Remove(db, v.channel, room).1 else db
  }

  /** A delayed removal looks again, and leaves a room that has anybody in it. */
  predicate StillEmpty(db: Db, room: string) { UsersIn(db, room) == {} }

  /** The room exists, is ephemeral, and holds nobody besides the one who left. */
  ghost predicate EmptyBut(db: Db, leaver: string, room: string) {
    room in db.roomNames && room !in db.nonEphemeral && forall u :: (room, u) in db.members ==> u == leaver
  }

  lemma EmptyButIff(db: Db, leaver: string, room: string)
    requires room in db.roomNames
    ensures UsersIn(db, room) - {leaver} == {} <==> forall u :: (room, u) in db.members ==> u == leaver
  {
    assert forall u :: u in UsersIn(db, room) <==> (room, u) in db.members by {
      JoinLeaveMeaning(db, leaver, room);
    }
    if u :| (room, u) in db.members && u != leaver {
      assert u in UsersIn(db, room) - {leaver};
    }
  }

  /** What a check decides: nothing, a timer under the room's channel, or that the room goes at once. */
  lemma CheckMeaning(db: Db, leaver: string, room: string, delayed: bool, delayEnabled: bool)
    requires room in db.roomNames ==> room in db.channelOf
    ensures var v := CheckEmpty(db, leaver, room, delayed, delayEnabled);
            && (!EmptyBut(db, leaver, room) ==> v == Keep && Act(db, room, v) == db)
            && (EmptyBut(db, leaver, room) && delayed && delayEnabled ==>
                  v == RemoveLater(db.channelOf[room]) && Act(db, room, v) == db)
            && (EmptyBut(db, leaver, room) && !(delayed && delayEnabled) ==>
                  && v == RemoveNow(db.channelOf[room])
                  && (TablesAgree(db) ==> OnlyRoomGone(db, Act(db, room, v), room)))
  {
    if room in db.roomNames {
      EmptyButIff(db, leaver, room);
      RemoveMeaning(db, db.channelOf[room], room);
    }
  }

  // ----- Leaving everything -----

  /** Other users are where they were. */
  ghost predicate OthersStay(before: Db, now: Db, user: string) {
    && (forall m: (string, string) :: m.1 != user ==> (m in now.members <==> m in before.members))
    && (forall m: (string, string) :: m.0 != user ==> (m in now.memberships <==> m in before.memberships))
  }

  /** Rooms that remain are as before; rooms that went were ephemeral and had nobody else. */
  ghost predicate OnlyEmptyRoomsGo(before: Db, now: Db, user: string) {
    && now.channels == before.channels
    && (forall room :: room in now.roomNames ==>
          && room in before.roomNames && room in now.channelOf && room in before.channelOf
          && now.channelOf[room] == before.channelOf[room]
          && (room in now.nonEphemeral <==> room in before.nonEphemeral))
    && (forall room :: room in before.roomNames && room !in now.roomNames
                       ==> Ephemeral(before, room) && UsersIn(before, room) <= {user})
  }

  /** Timers are for ephemeral rooms, under their channels. */
  ghost predicate TimersOk(before: Db, timers: set<(string, string)>) {
    forall t :: t in timers ==>
      t.1 in before.roomNames && t.1 in before.channelOf && before.channelOf[t.1] == t.0 && Ephemeral(before, t.1)
  }

  /** While a user leaves his rooms: `todo` are the rooms he may still be in. */
  ghost predicate Departing(before: Db, now: Db, user: string, todo: set<string>) {
    && OthersStay(before, now, user)
    && OnlyEmptyRoomsGo(before, now, user)
    && forall room :: room in now.roomNames && (user, room) in now.memberships ==> room in todo
  }

  lemma UsersOfOthers(before: Db, now: Db, user: string, room: string)
    requires OthersStay(before, now, user) && room in now.roomNames && room in before.roomNames
    ensures UsersIn(now, room) - {user} == UsersIn(before, room) - {user}
  {
    forall v | v != user
      ensures v in UsersIn(now, room) <==> v in UsersIn(before, room)
    {
      assert (room, v) in now.members <==> (room, v) in before.members;
    }
  }

  lemma LeaveKeepsDeparting(before: Db, now: Db, user: string, room: string, todo: set<string>)
    requires TwoWay(now) && Departing(before, now, user, todo)
    ensures Departing(before, Leave(now, user, room).1, user, todo - {room})
  {
  }

  lemma RemovalKeepsDeparting(before: Db, mid: Db, user: string, room: string, todo: set<string>)
    requires Departing(before, mid, user, todo)
    requires room in mid.roomNames && Ephemeral(mid, room) && UsersIn(mid, room) - {user} == {}
    ensures Departing(before, Remove(mid, mid.channelOf[room], room).1, user, todo)
  {
    UsersOfOthers(before, mid, user, room);
  }

  /** One room left and checked. */
  lemma LeaveOne(before: Db, now: Db, user: string, room: string, todo: set<string>, used: set<string>,
                 delayEnabled: bool)
    requires Inv(now, used) && Departing(before, now, user, todo)
    ensures var mid := Leave(now, user, room).1;
            && Inv(mid, used)
            && var v := CheckEmpty(mid, user, room, true, delayEnabled);
               && Inv(Act(mid, room, v), used)
               && Departing(before, Act(mid, room, v), user, todo - {room})
               && (v.RemoveLater? ==> TimersOk(before, {(v.channel, room)}))
  {
    JoinLeaveKeepInv(now, used, user, room);
    LeaveKeepsDeparting(before, now, user, room, todo);
    ActKeepsDeparting(before, Leave(now, user, room).1, user, room, todo - {room}, used, delayEnabled);
  }

  lemma ActKeepsDeparting(before: Db, mid: Db, user: string, room: string, todo: set<string>, used: set<string>,
                          delayEnabled: bool)
    requires Inv(mid, used) && Departing(before, mid, user, todo)
    ensures var v := CheckEmpty(mid, user, room, true, delayEnabled);
            && Inv(Act(mid, room, v), used)
            && Departing(before, Act(mid, room, v), user, todo)
            && (v.RemoveLater? ==> TimersOk(before, {(v.channel, room)}))
  {
    if CheckEmpty(mid, user, room, true, delayEnabled).RemoveNow? {
      RemoveKeepsInv(mid, used, mid.channelOf[room], room);
      RemovalKeepsDeparting(before, mid, user, room, todo);
    }
  }

  /** The user's rooms that exist, are ephemeral, and hold nobody else. */
  function Lonely(db: Db, user: string): set<string> {
    set m | && m in db.memberships && m.0 == user && m.1 in db.roomNames && m.1 in db.channelOf
            && m.1 !in db.nonEphemeral && UsersIn(db, m.1) <= {user} :: m.1
  }

  function RoomsOf(db: Db, user: string): set<string> { set m | m in db.memberships && m.0 == user :: m.1 }

  /** The timers of the given rooms. */
  function TimersOf(db: Db, rooms: set<string>): set<(string, string)> {
    set room | room in rooms && room in db.channelOf :: (db.channelOf[room], room)
  }

  /** With the delay on no room has gone and the lonely rooms left so far have timers; with it off they have gone. */
  ghost predicate Progress(before: Db, now: Db, user: string, todo: set<string>, timers: set<(string, string)>,
                           delayEnabled: bool)
  {
    var left := Lonely(before, user) - todo;
    if delayEnabled then now.roomNames.Keys == before.roomNames.Keys && timers == TimersOf(before, left)
    else now.roomNames.Keys == before.roomNames.Keys - left && timers == {}
  }

  lemma LonelyIff(db: Db, user: string, room: string)
    requires room in RoomsOf(db, user) && room in db.roomNames && room in db.channelOf
    ensures room in Lonely(db, user) <==> Ephemeral(db, room) && UsersIn(db, room) <= {user}
  {
    assert (user, room) in db.memberships;
  }

  /** A room that both states have, under the same channel and with the same flag. */
  predicate SameRoom(before: Db, now: Db, room: string) {
    && room in before.roomNames && room in now.roomNames && room in before.channelOf && room in now.channelOf
    && now.channelOf[room] == before.channelOf[room] && (room in now.nonEphemeral <==> room in before.nonEphemeral)
  }

  lemma UsersAfterLeave(before: Db, now: Db, user: string, room: string)
    requires SameRoom(before, now, room) && OthersStay(before, now, user)
    ensures UsersIn(Leave(now, user, room).1, room) - {user} == UsersIn(before, room) - {user}
  {
    JoinLeaveUsers(now, user, room, room);
    UsersOfOthers(before, now, user, room);
  }

  lemma NobodyElse(users: set<string>, user: string)
    ensures users - {user} == {} <==> users <= {user}
  {
    if users <= {user} {
      assert forall u :: u in users ==> u in {user};
    }
    if users - {user} == {} {
      assert forall u :: u in users && u != user ==> u in users - {user};
    }
  }

  /** The check of a departure decides against a room exactly if it was lonely. */
  lemma CheckFindsLonely(before: Db, now: Db, user: string, room: string, delayEnabled: bool)
    requires SameRoom(before, now, room) && OthersStay(before, now, user) && room in RoomsOf(before, user)
    ensures var mid := Leave(now, user, room).1;
            && SameRoom(before, mid, room)
            && CheckEmpty(mid, user, room, true, delayEnabled)
               == if room !in Lonely(before, user) then Keep
                  else if delayEnabled then RemoveLater(before.channelOf[room]) else RemoveNow(before.channelOf[room])
  {
    LeaveKeepsRooms(now, user, room);
    LonelyIff(before, user, room);
    UsersAfterLeave(before, now, user, room);
    NobodyElse(UsersIn(before, room), user);
  }

  lemma OneFewer(lonely: set<string>, todo: set<string>, room: string)
    requires room in todo
    ensures lonely - (todo - {room}) == (lonely - todo) + (if room in lonely then {room} else {})
  {
  }

  lemma OneTimer(db: Db, rooms: set<string>, room: string)
    requires room in db.channelOf
    ensures TimersOf(db, rooms + {room}) == TimersOf(db, rooms) + {(db.channelOf[room], room)}
  {
  }

  lemma LeaveKeepsRooms(db: Db, user: string, room: string)
    ensures var db' := Leave(db, user, room).1;
            db'.roomNames == db.roomNames && db'.channelOf == db.channelOf && db'.nonEphemeral == db.nonEphemeral
  {
  }

  /** A round changes the rooms and the timers by the room in question, or not at all. */
  lemma RoundChanges(before: Db, now: Db, now': Db, user: string, room: string, todo: set<string>,
                     timers: set<(string, string)>, delayEnabled: bool)
    requires Progress(before, now, user, todo, timers, delayEnabled) && room in todo
    requires var gone := if room in Lonely(before, user) && !delayEnabled then {room} else {};
             now'.roomNames.Keys == now.roomNames.Keys - gone
    requires room in Lonely(before, user) ==> room in before.channelOf
    ensures var added := if room in Lonely(before, user) && delayEnabled then {(before.channelOf[room], room)} else {};
            Progress(before, now', user, todo - {room}, timers + added, delayEnabled)
  {
    var lonely := Lonely(before, user);
    OneFewer(lonely, todo, room);
    if room in lonely {
      OneTimer(before, lonely - todo, room);
    } else {
      assert timers + {} == timers && lonely - todo + {} == lonely - todo;
    }
  }

  ghost predicate RemovesRoom(db: Db, room: string) {
    room in db.channelOf && Remove(db, db.channelOf[room], room).1.roomNames.Keys == db.roomNames.Keys - {room}
  }

  lemma RoundProgress(before: Db, now: Db, user: string, room: string, todo: set<string>,
                      timers: set<(string, string)>, delayEnabled: bool)
    requires OthersStay(before, now, user) && room in todo && todo <= RoomsOf(before, user)
    requires room in now.roomNames ==> SameRoom(before, now, room) && RemovesRoom(Leave(now, user, room).1, room)
    requires Progress(before, now, user, todo, timers, delayEnabled)
    ensures var mid := Leave(now, user, room).1;
            && (room in mid.roomNames ==> room in mid.channelOf)
            && var v := CheckEmpty(mid, user, room, true, delayEnabled);
               Progress(before, Act(mid, room, v), user, todo - {room},
                        timers + (if v.RemoveLater? then {(v.channel, room)} else {}), delayEnabled)
  {
    var mid := Leave(now, user, room).1;
    if room in now.roomNames {
      CheckFindsLonely(before, now, user, room, delayEnabled);
    } else {
      GoneIsNotLonely(before, now, user, room, todo, timers, delayEnabled);
    }
    LeaveKeepsRooms(now, user, room);
    var v := CheckEmpty(mid, user, room, true, delayEnabled);
    RoundChanges(before, now, Act(mid, room, v), user, room, todo, timers, delayEnabled);
  }

  lemma RoundBegins(before: Db, now: Db, user: string, room: string, todo: set<string>, used: set<string>)
    requires Inv(before, used) && Inv(now, used) && Departing(before, now, user, todo) && room in now.roomNames
    ensures SameRoom(before, now, room) && RemovesRoom(Leave(now, user, room).1, room)
  {
    LeaveKeepsRooms(now, user, room);
    RemovalProgress(Leave(now, user, room).1, used, user, now, room);
  }

  lemma GoneIsNotLonely(before: Db, now: Db, user: string, room: string, todo: set<string>,
                        timers: set<(string, string)>, delayEnabled: bool)
    requires Progress(before, now, user, todo, timers, delayEnabled) && room in todo && room !in now.roomNames
    ensures room !in Lonely(before, user)
  {
  }

  lemma RemovalProgress(mid: Db, used: set<string>, user: string, now: Db, room: string)
    requires Inv(now, used) && mid == Leave(now, user, room).1 && room in now.roomNames
    ensures room in mid.channelOf
    ensures Remove(mid, mid.channelOf[room], room).1.roomNames.Keys == now.roomNames.Keys - {room}
  {
    JoinLeaveKeepInv(now, used, user, room);
    RemoveKeepsInv(mid, used, mid.channelOf[room], room);
  }

  lemma DepartureBegins(db: Db, user: string, delayEnabled: bool)
    requires TablesAgree(db)
    ensures Departing(db, db, user, RoomsOf(db, user)) && Progress(db, db, user, RoomsOf(db, user), {}, delayEnabled)
  {
    assert forall room :: (user, room) in db.memberships ==> (user, room).1 in RoomsOf(db, user);
    assert Lonely(db, user) - RoomsOf(db, user) == {};
  }

  lemma NothingTodo(before: Db, now: Db, user: string, timers: set<(string, string)>, delayEnabled: bool)
    requires Progress(before, now, user, {}, timers, delayEnabled)
    ensures var lonely := Lonely(before, user);
            if delayEnabled then now.roomNames.Keys == before.roomNames.Keys && timers == TimersOf(before, lonely)
            else now.roomNames.Keys == before.roomNames.Keys - lonely && timers == {}
  {
    assert Lonely(before, user) - {} == Lonely(before, user);
  }

  /** One round of leaving and checking: the tables and the timers after it. */
  function AfterRound(now: Db, user: string, room: string, timers: set<(string, string)>, delayEnabled: bool)
    : (Db, set<(string, string)>)
    requires room in now.roomNames ==> room in now.channelOf
  {
    var mid := Leave(now, user, room).1;
    var v := CheckEmpty(mid, user, room, true, delayEnabled);
    (Act(mid, room, v), timers + (if v.RemoveLater? then {(v.channel, room)} else {}))
  }

  lemma OneRound(before: Db, now: Db, user: string, room: string, todo: set<string>, timers: set<(string, string)>,
                 used: set<string>, delayEnabled: bool)
    requires Inv(before, used) && Inv(now, used) && Departing(before, now, user, todo)
    requires room in todo && todo <= RoomsOf(before, user)
    requires TimersOk(before, timers) && Progress(before, now, user, todo, timers, delayEnabled)
    ensures room in now.roomNames ==> room in now.channelOf
    ensures var (db, more) := AfterRound(now, user, room, timers, delayEnabled);
            && Inv(db, used) && Departing(before, db, user, todo - {room})
            && TimersOk(before, more) && Progress(before, db, user, todo - {room}, more, delayEnabled)
  {
    LeaveOne(before, now, user, room, todo, used, delayEnabled);
    if room in now.roomNames {
      RoundBegins(before, now, user, room, todo, used);
    }
    RoundProgress(before, now, user, room, todo, timers, delayEnabled);
  }

  /** The user's list is cleared at the end. */
  lemma AllLeft(before: Db, now: Db, user: string, used: set<string>)
    requires Inv(now, used) && Departing(before, now, user, {})
    ensures Inv(Forget(now, user), used) && Departing(before, Forget(now, user), user, {})
    ensures forall room :: room in now.roomNames ==> user !in UsersIn(Forget(now, user), room)
  {
    ForgetKeepsInvIff(now, used, user);
  }

  // ----- The database object -----

  class DatabaseRedis {
    var channels: set<string>
    var roomNames: map<string, string>
    var listed: map<(string, string), string>
    var channelOf: map<string, string>
    var nonEphemeral: set<string>
    var members: set<(string, string)>
    var memberships: set<(string, string)>

    function View(): Db
      reads this
    {
      Db(channels, roomNames, listed, channelOf, nonEphemeral, members, memberships)
    }

    constructor (channels: set<string>)
      ensures View() == Db(channels, map[], map[], map[], {}, {}, {})
    {
      this.channels := channels;
      roomNames, listed, channelOf, nonEphemeral, members, memberships := map[], map[], map[], {}, {}, {};
    }

    method RoomNameExists(channel: string, name: string) returns (taken: bool)
      ensures taken <==> NameTaken(View(), channel, name)
    {
      var todo := listed.Keys;
      while todo != {}
        invariant todo <= listed.Keys
        invariant forall key :: key in listed && key !in todo && key.0 == channel
                                ==> LowerAll(listed[key]) != LowerAll(name)
        decreases |todo|
      {
        var key :| key in todo;
        if key.0 == channel && LowerAll(listed[key]) == LowerAll(name) {
          return true;
        }
        todo := todo - {key};
      }
      taken := false;
    }

    method CreateRoom(channel: string, room: string, name: string, ephemeral: bool) returns (r: Result)
      modifies this
      ensures (r, View()) == Create(old(View()), channel, room, name, ephemeral)
    {
      if channel !in channels {
        return NoSuchChannel;
      }
      if IsBlank(name) {
        return EmptyRoomName;
      }
      if (channel, room) in listed {
        return RoomExists;
      }
      var taken := RoomNameExists(channel, name);
      if taken {
        return Result.RoomNameExists;
      }
      if ephemeral {
        nonEphemeral := nonEphemeral + {room};
      }
      roomNames := roomNames[room := name];
      listed := listed[(channel, room) := name];
      channelOf := channelOf[room := channel];
      r := Done;
    }

    method RenameRoom(channel: string, room: string, name: string) returns (r: Result)
      modifies this
      ensures (r, View()) == Rename(old(View()), channel, room, name)
    {
      if channel !in channels {
        return NoSuchChannel;
      }
      if IsBlank(name) {
        return EmptyRoomName;
      }
      if (channel, room) !in listed {
        return NoSuchRoom;
      }
      var taken := RoomNameExists(channel, name);
      if taken {
        return Result.RoomNameExists;
      }
      roomNames := roomNames[room := name];
      listed := listed[(channel, room) := name];
      r := Done;
    }

    method RemoveRoom(channel: string, room: string) returns (r: Result)
      modifies this
      ensures (r, View()) == Remove(old(View()), channel, room)
    {
      if (channel, room) !in listed {
        return NoSuchRoom;
      }
      if channel !in channels {
        return NoSuchChannel;
      }
      nonEphemeral := nonEphemeral - {room};
      roomNames := roomNames - {room};
      listed := listed - {(channel, room)};
      channelOf := channelOf - {room};
      r := Done;
    }

    method LeaveRoom(user: string, room: string) returns (r: Result)
      modifies this
      ensures (r, View()) == Leave(old(View()), user, room)
    {
      if room !in roomNames {
        return NoSuchRoom;
      }
      members := members - {(room, user)};
      memberships := memberships - {(user, room)};
      r := Done;
    }

    /** The end of a departure: the room goes, now or by a timer, if nobody else is in it. */
    method CheckIfRemoveRoomEmpty(leaver: string, room: string, delayed: bool, delayEnabled: bool)
      returns (timer: Option<string>)
      requires room in roomNames ==> room in channelOf
      modifies this
      ensures match CheckEmpty(old(View()), leaver, room, delayed, delayEnabled)
              case RemoveLater(channel) => timer == Some(channel)
              case _ => timer == None
      ensures View() == Act(old(View()), room, CheckEmpty(old(View()), leaver, room, delayed, delayEnabled))
      ensures var empty := && room in old(roomNames) && room !in old(nonEphemeral)
                           && forall u :: (room, u) in old(members) ==> u == leaver;
              && (!empty ==> View() == old(View()) && timer == None)
              && (empty && delayed && delayEnabled ==>
                    View() == old(View()) && timer == Some(old(channelOf)[room]))
              && (empty && !(delayed && delayEnabled) ==>
                    && timer == None
                    && (TablesAgree(old(View())) ==> OnlyRoomGone(old(View()), View(), room)))
    {
      CheckMeaning(View(), leaver, room, delayed, delayEnabled);
      if room !in roomNames {
        return None;
      }
      var channel := channelOf[room];
      if room in nonEphemeral {
        return None;
      }
      var users := UsersIn(View(), room);
      var others := users - {leaver};
      if others != {} {
        return None;
      }
      if delayed && delayEnabled {
        return Some(channel);
      }
      var r := RemoveRoom(channel, room);
      timer := None;
    }

    /** One round of the disconnect loop, with the timers set so far. */
    method LeaveAndCheck(user: string, room: string, delayEnabled: bool, timers: set<(string, string)>,
                         ghost before: Db, ghost todo: set<string>, ghost used: set<string>)
      returns (more: set<(string, string)>)
      requires Inv(before, used) && Inv(View(), used) && Departing(before, View(), user, todo)
      requires room in todo && todo <= RoomsOf(before, user)
      requires TimersOk(before, timers) && Progress(before, View(), user, todo, timers, delayEnabled)
      modifies this
      ensures Inv(View(), used) && Departing(before, View(), user, todo - {room})
      ensures TimersOk(before, more) && Progress(before, View(), user, todo - {room}, more, delayEnabled)
    {
      ghost var now := View();
      OneRound(before, now, user, room, todo, timers, used, delayEnabled);
      var left := LeaveRoom(user, room);
      var timer := CheckIfRemoveRoomEmpty(user, room, true, delayEnabled);
      more := timers + (if timer.Some? then {(timer.value, room)} else {});
      ghost var after := AfterRound(now, user, room, timers, delayEnabled);
      assert View() == after.0 && more == after.1;
    }

    /** The loop over the user's rooms. */
    method LeaveEach(user: string, delayEnabled: bool, ghost used: set<string>) returns (timers: set<(string, string)>)
      requires Inv(View(), used)
      modifies this
      ensures Inv(View(), used) && Departing(old(View()), View(), user, {}) && TimersOk(old(View()), timers)
      ensures Progress(old(View()), View(), user, {}, timers, delayEnabled)
    {
      timers := {};
      var rooms := RoomsOf(View(), user);
      ghost var before := View();
      DepartureBegins(before, user, delayEnabled);
      while rooms != {}
        invariant rooms <= RoomsOf(before, user)
        invariant Inv(View(), used) && Departing(before, View(), user, rooms)
        invariant TimersOk(before, timers) && Progress(before, View(), user, rooms, timers, delayEnabled)
        decreases |rooms|
      {
        var room :| room in rooms;
        timers := LeaveAndCheck(user, room, delayEnabled, timers, before, rooms, used);
        rooms := rooms - {room};
      }
    }

    /**
      The disconnect hook: leaves every room in the user's list, each followed by its check, and then
      clears the list. Afterwards no existing room has the user, and nobody else has moved.
    */
    method LeaveAllRooms(user: string, delayEnabled: bool, ghost used: set<string>)
      returns (timers: set<(string, string)>)
      requires Inv(View(), used)
      modifies this
      ensures Inv(View(), used)
      ensures forall room :: room in roomNames ==> user !in UsersIn(View(), room)
      ensures forall room :: (user, room) !in memberships
      ensures OthersStay(old(View()), View(), user)
      ensures OnlyEmptyRoomsGo(old(View()), View(), user)
      ensures TimersOk(old(View()), timers)
      ensures var lonely := Lonely(old(View()), user);
              if delayEnabled then roomNames.Keys == old(roomNames.Keys) && timers == TimersOf(old(View()), lonely)
              else roomNames.Keys == old(roomNames.Keys) - lonely && timers == {}
    {
      ghost var before := View();
      timers := LeaveEach(user, delayEnabled, used);
      ghost var now := View();
      AllLeft(before, now, user, used);
      NothingTodo(before, now, user, timers, delayEnabled);
      memberships := set m | m in memberships && m.0 != user;
      assert View() == Forget(now, user);
    }
  }
}
