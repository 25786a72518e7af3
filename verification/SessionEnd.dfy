/**
  The end of a session: what the disconnect hook looks up and removes, in three parts that each look
  anew, and when it takes the user to be gone.
*/
module SessionEnd {
  import opened Strings
  import opened CsvSets
  import Index = SessionIndex

  /** The index of the cache lists every session; the table of the Redis database keeps the latest one only. */
  datatype Kind = Every | Latest

  function Added(kind: Kind, sids: set<string>, sid: string): set<string> {
    if kind.Every? then sids + {sid} else {sid}
  }

  /** The Redis database removes whatever session it has. */
  function Removed(kind: Kind, sids: set<string>, sid: string): set<string> {
    if kind.Every? then sids - {sid} else {}
  }

  /** `leave_private_room`, for sockets only: nothing while there are several sessions. */
  function AfterPrivateRoom(kind: Kind, sids: set<string>, sid: string): set<string> {
    if |sids| > 1 then sids
    else
      var left := Removed(kind, sids, sid);
      if |left| == 0 || (sid in left && |left| == 1) then {} else left
  }

  /** `emit_disconnect_event` removes the session if it is still listed. */
  function AfterEvent(kind: Kind, sids: set<string>, sid: string): set<string> {
    if sid in sids then Removed(kind, sids, sid) else sids
  }

  /** `set_user_offline`: the sessions it leaves, and whether the user is gone. */
  function AfterTest(kind: Kind, sids: set<string>, sid: string): (set<string>, bool) {
    if |sids| > 1 then (sids, false)
    else
      var left := Removed(kind, sids, sid);
      (left, |left| == 0)
  }

  /** The whole hook, of a socket or of a heartbeat session. */
  function Ended(kind: Kind, sids: set<string>, sid: string, socket: bool): (set<string>, bool) {
    var left := if socket then AfterPrivateRoom(kind, sids, sid) else sids;
    AfterTest(kind, AfterEvent(kind, left, sid), sid)
  }

  /** The first part leaves several sessions alone, and otherwise takes this one, or all that the database keeps. */
  lemma PrivateRoomMeaning(kind: Kind, sids: set<string>, sid: string)
    ensures AfterPrivateRoom(kind, sids, sid)
            == if |sids| > 1 then sids else if kind.Every? then sids - {sid} else {}
  {
    if |sids| <= 1 && sid in sids {
      AtMostOne(sids, sid);
    }
  }

  lemma AtMostOne<T>(s: set<T>, x: T)
    requires |s| <= 1 && x in s
    ensures s == {x}
  {
    assert |s - {x}| == 0;
  }

  /** With every session listed, exactly this one goes, and the user is gone exactly if it was his last. */
  lemma LastSessionEnds(sids: set<string>, sid: string, socket: bool)
    ensures Ended(Every, sids, sid, socket) == (sids - {sid}, sids - {sid} == {})
  {
    if sid in sids && |sids| <= 1 {
      AtMostOne(sids, sid);
    }
    assert |sids - {sid}| == 0 <==> sids - {sid} == {};
    assert sid !in sids ==> sids - {sid} == sids;
    assert (sids - {sid}) - {sid} == sids - {sid};
  }

  /** With one session kept, any session that ends is taken for the last. */
  lemma AnySessionEnds(sids: set<string>, sid: string, socket: bool)
    requires |sids| <= 1
    ensures Ended(Latest, sids, sid, socket) == ({}, true)
  {
  }

  // ----- The tables -----

  /** A table of sessions: pairs of a user and one of his sessions. */
  type Table = set<(string, string)>

  function SidsIn(table: Table, user: string): set<string> { set p | p in table && p.0 == user :: p.1 }

  /** The table with other sessions for one user. */
  function WithSids(table: Table, user: string, sids: set<string>): Table {
    (set p | p in table && p.0 != user) + (set x | x in sids :: (user, x))
  }

  lemma SidsAre(table: Table, user: string, x: string)
    ensures x in SidsIn(table, user) <==> (user, x) in table
  {
  }

  lemma WithSidsHas(table: Table, user: string, sids: set<string>)
    ensures SidsIn(WithSids(table, user, sids), user) == sids
    ensures forall u :: u != user ==> SidsIn(WithSids(table, user, sids), u) == SidsIn(table, u)
  {
    var table' := WithSids(table, user, sids);
    forall x
      ensures x in SidsIn(table', user) <==> x in sids
    {
      SidsAre(table', user, x);
    }
    forall u | u != user
      ensures SidsIn(table', u) == SidsIn(table, u)
    {
      forall x
        ensures x in SidsIn(table', u) <==> x in SidsIn(table, u)
      {
        SidsAre(table', u, x);
        SidsAre(table, u, x);
      }
    }
  }

  lemma WithSidsTwice(table: Table, user: string, sids: set<string>, more: set<string>)
    ensures WithSids(WithSids(table, user, sids), user, more) == WithSids(table, user, more)
  {
    assert forall p :: p in WithSids(WithSids(table, user, sids), user, more) <==> p in WithSids(table, user, more);
  }

  lemma WithSameSids(table: Table, user: string)
    ensures WithSids(table, user, SidsIn(table, user)) == table
  {
    forall p
      ensures p in WithSids(table, user, SidsIn(table, user)) <==> p in table
    {
      SidsAre(table, user, p.1);
    }
  }

  /** The sessions as the database object gives them: from the index of the cache, or from its own table. */
  class SessionTables {
    const kind: Kind
    const index: Index.SessionIndex
    var latest: map<string, string>

    constructor (kind: Kind)
      ensures this.kind == kind && fresh(index) && View() == {}
    {
      this.kind := kind;
      this.index := new Index.SessionIndex();
      latest := map[];
    }

    function Listed(user: string): set<string>
      reads this, index
    {
      if kind.Every? then index.Listed(user)
      else if user in latest then {latest[user]} else {}
    }

    function View(): Table
      reads this, index
    {
      if kind.Every? then set u, x | u in index.sidForUserId && x in index.Listed(u) :: (u, x)
      else set u | u in latest :: (u, latest[u])
    }

    lemma ViewHas(user: string)
      ensures SidsIn(View(), user) == Listed(user)
    {
      forall x
        ensures x in SidsIn(View(), user) <==> x in Listed(user)
      {
        SidsAre(View(), user, x);
      }
    }

    /** What changing one user's list means for the table. */
    twostate lemma OneListChanged(user: string)
      requires forall u :: u != user ==> Listed(u) == old(Listed(u))
      ensures View() == WithSids(old(View()), user, Listed(user))
    {
      forall u, x
        ensures (u, x) in View() <==> (u, x) in WithSids(old(View()), user, Listed(user))
      {
        assert (u, x) in View() <==> x in Listed(u);
        assert (u, x) in old(View()) <==> x in old(Listed(u));
      }
    }

    /** The empty name left behind in the index is not a session. */
    method GetSids(user: string) returns (sids: set<string>)
      ensures sids == SidsIn(View(), user)
    {
      if kind.Every? {
        var known := index.GetSidsForUser(user);
        sids := if known.None? then {} else known.value - {""};
      } else {
        sids := if user in latest then {latest[user]} else {};
      }
      ViewHas(user);
    }

    method AddSid(user: string, sid: string)
      requires Name(sid)
      modifies this, index
      ensures View() == WithSids(old(View()), user, Added(kind, SidsIn(old(View()), user), sid))
    {
      ViewHas(user);
      if kind.Every? {
        index.AddSidForUser(user, sid);
      } else {
        latest := latest[user := sid];
      }
      OneListChanged(user);
    }

    method ResetSids(user: string)
      modifies this, index
      ensures View() == WithSids(old(View()), user, {})
    {
      if kind.Every? {
        index.ResetSidsForUser(user);
      } else {
        latest := latest - {user};
      }
      OneListChanged(user);
    }

    method RemoveSid(user: string, sid: string)
      requires Name(sid)
      modifies this, index
      ensures View() == WithSids(old(View()), user, Removed(kind, SidsIn(old(View()), user), sid))
    {
      ViewHas(user);
      if kind.Every? {
        index.RemoveSidForUser(Some(user), sid);
        OneListChanged(user);
      } else {
        ResetSids(user);
      }
    }

    method LeavePrivateRoom(user: string, sid: string)
      requires Name(sid)
      modifies this, index
      ensures View() == WithSids(old(View()), user, AfterPrivateRoom(kind, SidsIn(old(View()), user), sid))
    {
      var before := GetSids(user);
      WithSameSids(View(), user);
      if |before| > 1 {
        return;
      }
      ghost var table, left := View(), Removed(kind, before, sid);
      WithSidsHas(table, user, left);
      WithSidsTwice(table, user, left, {});
      RemoveSid(user, sid);
      assert View() == WithSids(table, user, left);
      var sids := GetSids(user);
      assert sids == left;
      if |sids| == 0 || (sid in sids && |sids| == 1) {
        ResetSids(user);
        assert View() == WithSids(table, user, {});
      }
      assert before == SidsIn(old(View()), user) && table == old(View());
    }

    method MakeSureCurrentSidRemoved(user: string, sid: string)
      requires Name(sid)
      modifies this, index
      ensures View() == WithSids(old(View()), user, AfterEvent(kind, SidsIn(old(View()), user), sid))
    {
      var sids := GetSids(user);
      WithSameSids(View(), user);
      if sid in sids {
        RemoveSid(user, sid);
      }
    }

    method TestForOffline(user: string, sid: string) returns (gone: bool)
      requires Name(sid)
      modifies this, index
      ensures var (left, offline) := AfterTest(kind, SidsIn(old(View()), user), sid);
              View() == WithSids(old(View()), user, left) && gone == offline
    {
      var before := GetSids(user);
      WithSameSids(View(), user);
      if |before| > 1 {
        return false;
      }
      ghost var table, left := View(), Removed(kind, before, sid);
      WithSidsHas(table, user, left);
      RemoveSid(user, sid);
      assert View() == WithSids(table, user, left);
      var sids := GetSids(user);
      gone := |sids| == 0;
    }

    /** The hook's three parts. */
    method EndSession(user: string, sid: string, socket: bool) returns (gone: bool)
      requires Name(sid)
      modifies this, index
      ensures var (left, offline) := Ended(kind, SidsIn(old(View()), user), sid, socket);
              View() == WithSids(old(View()), user, left) && gone == offline
    {
      ghost var table, sids := View(), SidsIn(View(), user);
      WithSameSids(table, user);
      if socket {
        LeavePrivateRoom(user, sid);
        sids := AfterPrivateRoom(kind, sids, sid);
        WithSidsHas(table, user, sids);
      }
      MakeSureCurrentSidRemoved(user, sid);
      ghost var left := AfterEvent(kind, sids, sid);
      WithSidsTwice(table, user, sids, left);
      WithSidsHas(table, user, left);
      gone := TestForOffline(user, sid);
      WithSidsTwice(table, user, left, AfterTest(kind, left, sid).0);
    }
  }
}
