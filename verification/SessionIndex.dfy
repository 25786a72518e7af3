/**
  Which sessions a user has, and which user a session belongs to: a hash from user to a comma
  separated string, and a hash back.
*/
module SessionIndex {
  import opened Strings
  import opened CsvSets

  /** The sessions that a table lists for a user; the empty string left behind by the last one is none. */
  function ListedIn(table: map<string, string>, user: string): set<string> {
    Names(if user in table then Some(table[user]) else None)
  }

  /** Every listed session leads back to its user. */
  ghost predicate LeadsBack(table: map<string, string>, back: map<string, string>) {
    forall u, sid :: sid in ListedIn(table, u) ==> sid in back && back[sid] == u
  }

  /** No other user has the session. */
  ghost predicate OnlyOf(table: map<string, string>, user: string, sid: string) {
    forall v :: v != user ==> sid !in ListedIn(table, v)
  }

  function Pointing(back: map<string, string>, sids: set<string>, user: string): map<string, string> {
    map s | s in back.Keys + sids :: if s in sids then user else back[s]
  }

  /** Giving a user a new list, with the way back for each of its sessions. */
  lemma NewListLeadsBack(table: map<string, string>, back: map<string, string>, user: string, stored: string,
                         sids: set<string>)
    requires LeadsBack(table, back) && Names(Some(stored)) <= sids
    requires forall sid :: sid in sids && sid != "" ==> OnlyOf(table, user, sid)
    ensures LeadsBack(table[user := stored], Pointing(back, sids, user))
  {
    ListedAfter(table, user, stored);
    var table', back' := table[user := stored], Pointing(back, sids, user);
    forall v, sid | sid in ListedIn(table', v)
      ensures sid in back' && back'[sid] == v
    {
      if v != user {
        assert sid in ListedIn(table, v);
        if sid in sids {
          assert OnlyOf(table, user, sid);
        }
      }
    }
  }

  /** A table that lists no more than before, and the session in question not at all. */
  lemma DropLeadsBack(table: map<string, string>, table': map<string, string>, back: map<string, string>, sid: string)
    requires LeadsBack(table, back)
    requires forall v :: ListedIn(table', v) <= ListedIn(table, v) - {sid}
    ensures LeadsBack(table', back - {sid})
  {
    forall v, x | x in ListedIn(table', v)
      ensures x in back - {sid} && back[x] == v
    {
      assert x in ListedIn(table, v) - {sid};
    }
  }

  /** A listed session is nobody else's. */
  lemma ListedIsOnlyOf(table: map<string, string>, back: map<string, string>, user: string, sid: string)
    requires LeadsBack(table, back) && sid in ListedIn(table, user)
    ensures OnlyOf(table, user, sid)
  {
    forall v | sid in ListedIn(table, v)
      ensures v == user
    {
      assert back[sid] == v;
    }
  }

  lemma ListedAfter(table: map<string, string>, user: string, stored: string)
    ensures forall v :: ListedIn(table[user := stored], v)
                        == if v == user then Names(Some(stored)) else ListedIn(table, v)
  {
    forall v
      ensures ListedIn(table[user := stored], v) == if v == user then Names(Some(stored)) else ListedIn(table, v)
    {
      if v == user {
        assert v in table[user := stored];
      }
    }
  }

  /** Adding sessions to what a user has: the ways back stay right exactly if nobody else has any of it. */
  lemma NewListIff(table: map<string, string>, back: map<string, string>, user: string, stored: string,
                   sids: set<string>, added: set<string>)
    requires Names(Some(stored)) == sids - {""}
    requires "" !in added && added <= sids && sids - {""} <= ListedIn(table, user) + added
    ensures LeadsBack(table, back) ==>
              (LeadsBack(table[user := stored], Pointing(back, sids, user))
               <==> forall sid :: sid in added ==> OnlyOf(table, user, sid))
  {
    if LeadsBack(table, back) {
      ListedAfter(table, user, stored);
      if forall sid :: sid in added ==> OnlyOf(table, user, sid) {
        forall sid | sid in sids && sid != ""
          ensures OnlyOf(table, user, sid)
        {
          if sid !in added {
            assert sid in sids - {""};
            ListedIsOnlyOf(table, back, user, sid);
          }
        }
        NewListLeadsBack(table, back, user, stored, sids);
      } else {
        var sid :| sid in added && !OnlyOf(table, user, sid);
        var v :| v != user && sid in ListedIn(table, v);
        assert Pointing(back, sids, user)[sid] == user;
        assert sid in ListedIn(table[user := stored], v);
      }
    }
  }

  class SessionIndex {
    var sidForUserId: map<string, string>
    var userIdForSid: map<string, string>

    constructor ()
      ensures Valid() && sidForUserId == map[]
    {
      sidForUserId, userIdForSid := map[], map[];
    }

    function Listed(user: string): set<string>
      reads this
    {
      ListedIn(sidForUserId, user)
    }

    ghost predicate Valid()
      reads this
    {
      LeadsBack(sidForUserId, userIdForSid)
    }

    /** Only the user's own list may have changed. */
    twostate predicate OthersKept(user: string)
      reads this
    {
      forall u :: u != user ==> Listed(u) == old(Listed(u))
    }

    method GetSidsForUser(user: string) returns (sids: Option<set<string>>)
      ensures sids == if user in sidForUserId then Some(Parts(sidForUserId[user])) else None
    {
      if user !in sidForUserId {
        return None;
      }
      sids := Some(Parts(sidForUserId[user]));
    }

    method PointBack(sids: set<string>, user: string)
      modifies this`userIdForSid
      ensures userIdForSid == Pointing(old(userIdForSid), sids, user)
    {
      var todo := sids;
      while todo != {}
        invariant todo <= sids
        invariant userIdForSid == Pointing(old(userIdForSid), sids - todo, user)
        decreases |todo|
      {
        var sid :| sid in todo;
        userIdForSid := userIdForSid[sid := user];
        todo := todo - {sid};
      }
      assert sids - {} == sids;
    }

    /** Adding a session: the ways back stay right exactly if it is nobody else's. */
    method AddSidForUser(user: string, sid: string)
      requires Name(sid)
      modifies this
      ensures OthersKept(user) && Listed(user) == old(Listed(user)) + {sid}
      ensures old(Valid()) ==> (Valid() <==> OnlyOf(old(sidForUserId), user, sid))
    {
      ghost var table, back := sidForUserId, userIdForSid;
      var known := GetSidsForUser(user);
      var all := if known.None? then {} else known.value;
      all := all + {sid};
      PointBack(all, user);
      if known.Some? {
        PartsHaveNoComma(sidForUserId[user]);
      }
      var stored := Store(all);
      ListedAfter(sidForUserId, user, stored);
      sidForUserId := sidForUserId[user := stored];
      NewListIff(table, back, user, stored, all, {sid});
    }

    /** Giving a user these sessions: the ways back stay right exactly if they are nobody else's. */
    method SetSidsForUser(user: string, sids: set<string>)
      requires forall sid :: sid in sids ==> Name(sid)
      modifies this
      ensures OthersKept(user) && Listed(user) == sids
      ensures old(Valid()) ==> (Valid() <==> forall sid :: sid in sids ==> OnlyOf(old(sidForUserId), user, sid))
    {
      ghost var table, back := sidForUserId, userIdForSid;
      PointBack(sids, user);
      var stored := Store(sids);
      ListedAfter(sidForUserId, user, stored);
      sidForUserId := sidForUserId[user := stored];
      NewListIff(table, back, user, stored, sids, sids);
    }

    /**
      Removing a session, the last one included. Without a user only the way back goes. What remains
      leads back exactly if nobody else has the session, and without a user nobody at all.
    */
    method RemoveSidForUser(user: Option<string>, sid: string)
      requires Name(sid)
      modifies this
      ensures sid !in userIdForSid
      ensures user.Some? ==> OthersKept(user.value) && Listed(user.value) == old(Listed(user.value)) - {sid}
      ensures user.None? ==> sidForUserId == old(sidForUserId)
      ensures old(Valid()) ==>
                (Valid() <==> forall v :: Some(v) != user ==> sid !in ListedIn(old(sidForUserId), v))
    {
      ghost var table, back := sidForUserId, userIdForSid;
      userIdForSid := userIdForSid - {sid};
      if user.Some? {
        var known := GetSidsForUser(user.value);
        if known.Some? && sid in known.value {
          PartsHaveNoComma(sidForUserId[user.value]);
          var stored := Store(known.value - {sid});
          ListedAfter(sidForUserId, user.value, stored);
          sidForUserId := sidForUserId[user.value := stored];
        }
      }
      if LeadsBack(table, back) && forall v :: Some(v) != user ==> sid !in ListedIn(table, v) {
        DropLeadsBack(table, sidForUserId, back, sid);
      }
    }

    method ResetSidsForUser(user: string)
      modifies this
      ensures OthersKept(user) && Listed(user) == {}
      ensures old(Valid()) ==> Valid()
    {
      ghost var before := sidForUserId;
      sidForUserId := sidForUserId - {user};
      assert forall v, sid :: sid in ListedIn(sidForUserId, v) ==> sid in ListedIn(before, v);
    }
  }
}
