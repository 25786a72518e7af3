/**
  Whether a user may do something to a room or channel: the ACL types that the configuration lists
  for the action, each tested if the target has a value for it.
*/
module AclAction {
  import opened Strings
  import opened AclClauses
  import opened AclTokens
  import opened AclPattern
  import opened AclMeaning

  /** What is known of the user and the target before any ACL is looked at. */
  datatype Standing = Standing(admin: bool, superUser: bool, globalModerator: bool, channelOwner: bool, roomOwner: bool)

  datatype Target = Channel | Room

  /** One ACL type with the target's value for it; a custom rule that raises is a refusal. */
  function AclOutcome(validators: map<string, Validator>, session: map<string, string>, acl: string, value: string)
    : Outcome
  {
    if acl !in validators then Crashed
    else if acl == "custom" then
      var o := Evaluate(validators, Acting(session), Tokenize(value));
      if o.Raised? then Rejected else o
    else if validators[acl].Unusable? then Crashed
    else Validate(validators[acl], value, if acl in session then Some(session[acl]) else None, false)
  }

  /** The listed types in turn, up to the first that the target sets and that is not accepted. */
  function Verdict(validators: map<string, Validator>, session: map<string, string>, listed: seq<string>,
                   acls: map<string, string>): Outcome
  {
    if listed == [] then Accepted
    else if listed[0] in acls && !AclOutcome(validators, session, listed[0], acls[listed[0]]).Accepted?
    then AclOutcome(validators, session, listed[0], acls[listed[0]])
    else Verdict(validators, session, listed[1..], acls)
  }

  /** Every ACL type that is both listed and set accepts. */
  ghost predicate AllAccept(validators: map<string, Validator>, session: map<string, string>, listed: seq<string>,
                            acls: map<string, string>)
  {
    forall acl :: acl in listed && acl in acls ==> AclOutcome(validators, session, acl, acls[acl]).Accepted?
  }

  lemma {:induction false} VerdictIsConjunction(validators: map<string, Validator>, session: map<string, string>,
                                                listed: seq<string>, acls: map<string, string>)
    ensures Verdict(validators, session, listed, acls).Accepted? <==> AllAccept(validators, session, listed, acls)
  {
    if listed != [] {
      VerdictIsConjunction(validators, session, listed[1..], acls);
      assert listed == [listed[0]] + listed[1..];
    }
  }

  /** The order and repetition of the listed types do not matter to acceptance. */
  lemma OrderDoesNotMatter(validators: map<string, Validator>, session: map<string, string>,
                           listed: seq<string>, listed': seq<string>, acls: map<string, string>)
    requires forall acl :: acl in listed <==> acl in listed'
    ensures Verdict(validators, session, listed, acls).Accepted?
            <==> Verdict(validators, session, listed', acls).Accepted?
  {
    VerdictIsConjunction(validators, session, listed, acls);
    VerdictIsConjunction(validators, session, listed', acls);
  }

  /** A further ACL on the target never lets anybody in who was kept out. */
  lemma MoreAclsNeverAdmit(validators: map<string, Validator>, session: map<string, string>, listed: seq<string>,
                           acls: map<string, string>, acl: string, value: string)
    requires acl !in acls && Verdict(validators, session, listed, acls[acl := value]).Accepted?
    ensures Verdict(validators, session, listed, acls).Accepted?
  {
    VerdictIsConjunction(validators, session, listed, acls);
    VerdictIsConjunction(validators, session, listed, acls[acl := value]);
    assert forall a :: a in acls ==> a in acls[acl := value] && acls[acl := value][a] == acls[a];
  }

  /** Who is let in whatever the ACLs say. */
  predicate Exempt(standing: Standing, target: Target) {
    || standing.admin || standing.superUser || standing.globalModerator || standing.channelOwner
    || (target.Room? && standing.roomOwner)
  }

  /** Each listed type that the target sets is configured, and the user meets it; `custom` is told apart. */
  ghost predicate MeetsAll(validators: map<string, Validator>, session: map<string, string>, listed: seq<string>,
                           acls: map<string, string>)
  {
    forall acl :: acl in listed && acl in acls && acl != "custom" ==>
      acl in validators && Meets(validators[acl], acls[acl], Lookup(session, acl))
  }

  lemma AllAcceptMeets(validators: map<string, Validator>, session: map<string, string>, listed: seq<string>,
                       acls: map<string, string>)
    ensures AllAccept(validators, session, listed, acls)
            <==> && MeetsAll(validators, session, listed, acls)
                 && ("custom" in listed && "custom" in acls
                     ==> AclOutcome(validators, session, "custom", acls["custom"]).Accepted?)
  {
    forall acl | acl in listed && acl in acls && acl != "custom"
      ensures AclOutcome(validators, session, acl, acls[acl]).Accepted?
              <==> acl in validators && Meets(validators[acl], acls[acl], Lookup(session, acl))
    {
      if acl in validators {
        ValidateMeets(validators[acl], acls[acl], Lookup(session, acl));
      }
    }
  }

  // ----- What escapes -----

  /** A set type lets the user pass. */
  ghost predicate Passes(validators: map<string, Validator>, session: map<string, string>, acls: map<string, string>,
                         acl: string)
  {
    acl in acls ==>
      && acl in validators
      && if acl == "custom" then Evaluate(validators, Acting(session), Tokenize(acls[acl])).Accepted?
         else Meets(validators[acl], acls[acl], Lookup(session, acl))
  }

  /** It has no usable validator, or is a range that spells none, or is a custom rule that crashes. */
  ghost predicate Breaks(validators: map<string, Validator>, session: map<string, string>, acls: map<string, string>,
                         acl: string)
  {
    && acl in acls
    && (acl in validators ==>
          if acl == "custom" then Evaluate(validators, Acting(session), Tokenize(acls[acl])).Crashed?
          else
            || validators[acl].Unusable?
            || (validators[acl].Range? && !IsBlank(acls[acl])
                && forall low, high :: !SpellsRange(acls[acl], low, high)))
  }

  /** Something escapes exactly if, in the order of the list, all types pass up to one that breaks. */
  ghost predicate SomethingEscapes(validators: map<string, Validator>, session: map<string, string>,
                                   listed: seq<string>, acls: map<string, string>)
  {
    && listed != []
    && (Passes(validators, session, acls, listed[0]) ==> SomethingEscapes(validators, session, listed[1..], acls))
    && (Passes(validators, session, acls, listed[0]) || Breaks(validators, session, acls, listed[0]))
  }

  lemma PassesOrBreaks(validators: map<string, Validator>, session: map<string, string>, acls: map<string, string>,
                       acl: string)
    requires acl in acls
    ensures var o := AclOutcome(validators, session, acl, acls[acl]);
            && (o.Accepted? <==> Passes(validators, session, acls, acl))
            && (o in {Crashed, Raised} <==> Breaks(validators, session, acls, acl))
  {
    if acl in validators && acl != "custom" {
      ValidateMeets(validators[acl], acls[acl], Lookup(session, acl));
      if validators[acl].Range? {
        UnreadableSpellsNothing(acls[acl]);
      }
    }
  }

  lemma {:induction false} EscapesIff(validators: map<string, Validator>, session: map<string, string>,
                                      listed: seq<string>, acls: map<string, string>)
    ensures Verdict(validators, session, listed, acls) in {Crashed, Raised}
            <==> SomethingEscapes(validators, session, listed, acls)
  {
    if listed != [] {
      var acl := listed[0];
      EscapesIff(validators, session, listed[1..], acls);
      if acl in acls {
        PassesOrBreaks(validators, session, acls, acl);
      }
    }
  }

  lemma VerdictMeaning(validators: map<string, Validator>, session: map<string, string>, listed: seq<string>,
                       acls: map<string, string>)
    requires "custom" in acls ==> Balanced(acls["custom"]) && '@' !in acls["custom"]
    ensures var o := Verdict(validators, session, listed, acls);
            && (o in {Crashed, Raised} <==> SomethingEscapes(validators, session, listed, acls))
            && (o.Accepted? ==> MeetsAll(validators, session, listed, acls))
            && (o.Accepted? && "custom" in listed && "custom" in acls
                ==> "custom" in validators && Means(validators, session, Tokenize(acls["custom"])))
            && (MeetsAll(validators, session, listed, acls) && ("custom" !in listed || "custom" !in acls)
                ==> o.Accepted?)
  {
    EscapesIff(validators, session, listed, acls);
    VerdictIsConjunction(validators, session, listed, acls);
    AllAcceptMeets(validators, session, listed, acls);
    if "custom" in listed && "custom" in acls && AllAccept(validators, session, listed, acls) {
      AcceptedMeansTrue(validators, session, Tokenize(acls["custom"]));
    }
  }

  /**
    `validate_acl_for_action`. A crash of a validator, or a listed type without one, escapes. Whoever
    is let in without being exempt meets every ACL, and makes a custom rule true; without a custom rule
    whoever meets them all is let in.
  */
  method ValidateAclForAction(validators: map<string, Validator>, session: map<string, string>, standing: Standing,
                              target: Target, listed: seq<string>, acls: map<string, string>)
    returns (allowed: bool, crashed: bool)
    requires "custom" in acls ==> Balanced(acls["custom"]) && '@' !in acls["custom"]
    ensures var o := Verdict(validators, session, listed, acls);
            && (allowed <==> Exempt(standing, target) || o.Accepted?)
            && (crashed <==> !Exempt(standing, target) && o in {Crashed, Raised})
    ensures standing.admin || standing.superUser || standing.globalModerator || standing.channelOwner ==> allowed
    ensures target.Room? && standing.roomOwner ==> allowed
    ensures allowed && !standing.admin && !standing.superUser && !standing.globalModerator && !standing.channelOwner
            && (target.Room? ==> !standing.roomOwner)
            ==> && MeetsAll(validators, session, listed, acls)
                && ("custom" in listed && "custom" in acls
                    ==> "custom" in validators && Means(validators, session, Tokenize(acls["custom"])))
    ensures MeetsAll(validators, session, listed, acls) && ("custom" !in listed || "custom" !in acls)
            ==> allowed && !crashed
    ensures crashed <==> !Exempt(standing, target) && SomethingEscapes(validators, session, listed, acls)
  {
    VerdictMeaning(validators, session, listed, acls);
    if standing.admin || standing.superUser || standing.globalModerator {
      return true, false;
    }
    if |listed| == 0 {
      return true, false;
    }
    if standing.channelOwner {
      return true, false;
    }
    if target.Room? && standing.roomOwner {
      return true, false;
    }
    if |acls| == 0 {
      return true, false;
    }
    var i := 0;
    while i < |listed|
      invariant 0 <= i <= |listed|
      invariant Verdict(validators, session, listed, acls) == Verdict(validators, session, listed[i..], acls)
    {
      var acl := listed[i];
      if acl in acls {
        var o := Crashed;
        if acl in validators && acl == "custom" {
          BalancedRecursive(acls[acl]);
          var run := new PatternRun(validators, Acting(session));
          o := run.SplitAndTest(acls[acl]);
          o := if o.Raised? then Rejected else o;
        } else if acl in validators && !validators[acl].Unusable? {
          o := Validate(validators[acl], acls[acl], if acl in session then Some(session[acl]) else None, false);
        }
        assert o == AclOutcome(validators, session, acl, acls[acl]);
        if !o.Accepted? {
          return false, !o.Rejected?;
        }
      }
      i := i + 1;
    }
    return true, false;
  }
}
