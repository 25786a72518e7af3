/**
  Roles of users in a room, in a channel or globally: a hash from user to a comma separated string.
*/
module Roles {
  import opened Strings
  import opened CsvSets

  class RoleTable {
    var roles: map<string, string>

    constructor ()
      ensures roles == map[]
    {
      roles := map[];
    }

    function StoredFor(user: string): Option<string>
      reads this
    {
      if user in roles then Some(roles[user]) else None
    }

    /** The set of roles a user has. */
    function Granted(user: string): set<string>
      reads this
    {
      Names(StoredFor(user))
    }

    /** `_has_role...`: membership in the set, whatever the order in the string. */
    method HasRole(user: string, role: string) returns (has: bool)
      requires Name(role)
      ensures has <==> role in Granted(user)
    {
      if user !in roles {
        return false;
      }
      has := role in Split(roles[user], ',');
    }

    /** A room or channel that is not known, by its name, gets no roles. */
    method AddRole(known: bool, user: string, role: string) returns (ok: bool)
      requires Name(role)
      modifies this
      ensures ok == known
      ensures Granted(user) == old(Granted(user)) + (if known then {role} else {})
      ensures forall u :: u != user ==> StoredFor(u) == old(StoredFor(u))
    {
      if !known {
        return false;
      }
      ok := true;
      if user !in roles {
        SplitWhole(role, ',');
        assert Parts(role) == {role};
        roles := roles[user := role];
      } else {
        var all := Parts(roles[user]);
        PartsHaveNoComma(roles[user]);
        all := all + {role};
        var stored := Store(all);
        roles := roles[user := stored];
      }
    }

    /** Removing a role, the last one included: then an empty string stays behind. */
    method RemoveRole(user: string, role: string)
      requires Name(role)
      modifies this
      ensures Granted(user) == old(Granted(user)) - {role}
      ensures forall u :: u != user ==> StoredFor(u) == old(StoredFor(u))
    {
      if user !in roles {
        return;
      }
      var all := Parts(roles[user]);
      if role !in all {
        return;
      }
      PartsHaveNoComma(roles[user]);
      all := all - {role};
      var stored := Store(all);
      roles := roles[user := stored];
    }
  }
}
