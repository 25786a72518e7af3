/**
  What a custom ACL rule means, and how far the evaluator's verdict agrees with it:
  `|` is "or", `,` is "and" and binds tighter, a group is a rule of its own, and whatever a
  `!` does is the business of the clause.
*/
module AclMeaning {
  import opened Strings
  import opened AclClauses
  import opened AclTokens
  import opened AclPattern

  // ----- Boolean meaning -----

  ghost predicate MeansAll<T>(alt: seq<T>, comma: T, leaf: seq<T> -> bool) {
    forall a :: a in Split(alt, comma) ==> leaf(a)
  }

  ghost predicate MeansAny<T>(s: seq<T>, bar: T, comma: T, leaf: seq<T> -> bool) {
    exists alt :: alt in Split(s, bar) && MeansAll(alt, comma, leaf)
  }

  function ClauseTrue(validators: map<string, Validator>, session: map<string, string>): string -> bool {
    c => TestClause(validators, Acting(session), c).Accepted?
  }

  /** A clause on its own, or a whole group with the meaning of the rule inside it. */
  ghost predicate AtomHolds(validators: map<string, Validator>, session: map<string, string>, a: seq<Token>) {
    if Groups(a) == [] then TestClause(validators, Acting(session), Show(a)).Accepted?
    else |a| == 1 && a[0].Grp? && MeansAny(a[0].text, '|', ',', ClauseTrue(validators, session))
  }

  ghost function AtomTrue(validators: map<string, Validator>, session: map<string, string>): seq<Token> -> bool {
    a => AtomHolds(validators, session, a)
  }

  /** The boolean meaning of a rule for a given session. */
  ghost predicate Means(validators: map<string, Validator>, session: map<string, string>, ts: seq<Token>) {
    MeansAny(ts, BAR, COMMA, AtomTrue(validators, session))
  }

  // ----- Outcomes of alternatives -----

  lemma {:induction false} AllOfAccepted<T>(parts: seq<seq<T>>, leaf: seq<T> -> Outcome)
    ensures AllOf(parts, leaf).Accepted? <==> forall p :: p in parts ==> leaf(p).Accepted?
  {
    if parts != [] {
      AllOfAccepted(parts[1..], leaf);
      assert parts == [parts[0]] + parts[1..];
    }
  }

  /** Alternative `i` is accepted and every earlier one is rejected, none raising. */
  ghost predicate FirstAccepted<T>(alts: seq<seq<T>>, comma: T, leaf: seq<T> -> Outcome, i: nat) {
    && i < |alts|
    && AllOf(Split(alts[i], comma), leaf).Accepted?
    && forall j :: 0 <= j < i ==> AllOf(Split(alts[j], comma), leaf).Rejected?
  }

  lemma {:induction false} AnyOfAccepted<T>(alts: seq<seq<T>>, comma: T, leaf: seq<T> -> Outcome)
    ensures AnyOf(alts, comma, leaf).Accepted? <==> exists i: nat :: FirstAccepted(alts, comma, leaf, i)
    ensures !AnyOf(alts, comma, leaf).Rejected?
  {
    if alts != [] {
      AnyOfAccepted(alts[1..], comma, leaf);
      var o := AllOf(Split(alts[0], comma), leaf);
      if o.Accepted? {
        assert FirstAccepted(alts, comma, leaf, 0);
      } else if o.Rejected? {
        if i: nat :| FirstAccepted(alts[1..], comma, leaf, i) {
          assert FirstAccepted(alts, comma, leaf, i + 1);
        }
        if i: nat :| FirstAccepted(alts, comma, leaf, i) {
          assert FirstAccepted(alts[1..], comma, leaf, i - 1);
        }
      }
    }
  }

  /** An accepted rule is true. Holds of every rule, well formed or not. */
  lemma AcceptedMeansTrueAny<T(!new)>(s: seq<T>, bar: T, comma: T, leaf: seq<T> -> Outcome, truth: seq<T> -> bool)
    requires OrOfAnds(s, bar, comma, leaf).Accepted?
    requires forall a :: leaf(a).Accepted? ==> truth(a)
    ensures MeansAny(s, bar, comma, truth)
  {
    var alts := Split(s, bar);
    AnyOfAccepted(alts, comma, leaf);
    var i: nat :| FirstAccepted(alts, comma, leaf, i);
    AllOfAccepted(Split(alts[i], comma), leaf);
    assert MeansAll(alts[i], comma, truth) by {
      forall a | a in Split(alts[i], comma)
        ensures truth(a)
      {
        assert leaf(a).Accepted?;
      }
    }
    assert alts[i] in alts;
  }

  lemma SimpleGroup(validators: map<string, Validator>, session: map<string, string>, text: string)
    requires !Compound(text)
    ensures MeansAny(text, '|', ',', ClauseTrue(validators, session)) <==> ClauseTrue(validators, session)(text)
  {
    SplitWhole(text, '|');
    SplitWhole(text, ',');
    assert text in Split(text, '|') && text in Split(text, ',');
  }

  /** Soundness: the evaluator accepts only rules that are true. */
  lemma AcceptedMeansTrue(validators: map<string, Validator>, session: map<string, string>, ts: seq<Token>)
    requires Evaluate(validators, Acting(session), ts).Accepted?
    ensures Means(validators, session, ts)
  {
    var mode := Acting(session);
    forall a: seq<Token> | AtomTest(validators, mode)(a).Accepted?
      ensures AtomTrue(validators, session)(a)
    {
      if Groups(a) != [] {
        var text := a[0].text;
        if Compound(text) {
          AcceptedMeansTrueAny(text, '|', ',', ClauseTest(validators, mode), ClauseTrue(validators, session));
        } else {
          SimpleGroup(validators, session, text);
        }
      }
    }
    AcceptedMeansTrueAny(ts, BAR, COMMA, AtomTest(validators, mode), AtomTrue(validators, session));
  }

  // ----- Exactness -----

  /** Every clause between the separators of a group can be read. */
  ghost predicate WellFormedGroup(validators: map<string, Validator>, text: string) {
    forall alt, c :: alt in Split(text, '|') && c in Split(alt, ',') ==> WellFormedClause(validators, c)
  }

  ghost predicate WellFormedAtom(validators: map<string, Validator>, a: seq<Token>) {
    if Groups(a) == [] then WellFormedClause(validators, Show(a))
    else |a| == 1 && a[0].Grp? && WellFormedGroup(validators, a[0].text)
  }

  /** Every clause can be read and every group stands alone between separators. */
  ghost predicate WellFormedRule(validators: map<string, Validator>, ts: seq<Token>) {
    forall alt, a :: alt in Split(ts, BAR) && a in Split(alt, COMMA) ==> WellFormedAtom(validators, a)
  }

  predicate CompoundAtom(a: seq<Token>) { |a| == 1 && a[0].Grp? && Compound(a[0].text) }

  /** Clauses that only accept or reject: then the outcome of a rule is its meaning. */
  lemma {:induction false} DecidedAlternative<T>(parts: seq<seq<T>>, leaf: seq<T> -> Outcome)
    requires forall p :: p in parts ==> leaf(p) in {Accepted, Rejected}
    ensures AllOf(parts, leaf) in {Accepted, Rejected}
  {
    if parts != [] {
      assert parts[0] in parts;
      DecidedAlternative(parts[1..], leaf);
    }
  }

  lemma {:induction false} DecidedAlternatives<T>(alts: seq<seq<T>>, comma: T, leaf: seq<T> -> Outcome)
    requires forall alt, p :: alt in alts && p in Split(alt, comma) ==> leaf(p) in {Accepted, Rejected}
    ensures AnyOf(alts, comma, leaf)
            == if exists alt :: alt in alts && AllOf(Split(alt, comma), leaf).Accepted? then Accepted else Raised
  {
    if alts != [] {
      assert alts == [alts[0]] + alts[1..];
      assert alts[0] in alts;
      DecidedAlternative(Split(alts[0], comma), leaf);
      DecidedAlternatives(alts[1..], comma, leaf);
    }
  }

  lemma DecidedRule<T(!new)>(s: seq<T>, bar: T, comma: T, leaf: seq<T> -> Outcome, truth: seq<T> -> bool)
    requires forall alt, p :: alt in Split(s, bar) && p in Split(alt, comma) ==> leaf(p) in {Accepted, Rejected}
    requires forall a :: truth(a) <==> leaf(a).Accepted?
    ensures OrOfAnds(s, bar, comma, leaf) == if MeansAny(s, bar, comma, truth) then Accepted else Raised
  {
    DecidedAlternatives(Split(s, bar), comma, leaf);
    forall alt | alt in Split(s, bar)
      ensures AllOf(Split(alt, comma), leaf).Accepted? <==> MeansAll(alt, comma, truth)
    {
      AllOfAccepted(Split(alt, comma), leaf);
      assert forall a :: a in Split(alt, comma) ==> (truth(a) <==> leaf(a).Accepted?);
    }
  }

  /** A well-formed atom: true is accepted; false is rejected, except that a false compound group raises. */
  lemma AtomVerdict(validators: map<string, Validator>, session: map<string, string>, a: seq<Token>)
    requires WellFormedAtom(validators, a)
    ensures AtomTest(validators, Acting(session))(a)
            == if AtomTrue(validators, session)(a) then Accepted
               else if CompoundAtom(a) then Raised else Rejected
  {
    var mode := Acting(session);
    if Groups(a) == [] {
      ClauseDecidesIffWellFormed(validators, session, Show(a));
    } else {
      var text := a[0].text;
      if Compound(text) {
        forall alt, c | alt in Split(text, '|') && c in Split(alt, ',')
          ensures ClauseTest(validators, mode)(c) in {Accepted, Rejected}
        {
          ClauseDecidesIffWellFormed(validators, session, c);
        }
        DecidedRule(text, '|', ',', ClauseTest(validators, mode), ClauseTrue(validators, session));
      } else {
        SplitWhole(text, '|');
        SplitWhole(text, ',');
        assert text in Split(text, '|') && text in Split(text, ',');
        ClauseDecidesIffWellFormed(validators, session, text);
        SimpleGroup(validators, session, text);
      }
    }
  }

  /** Part `k` is the first false one, and a compound group. */
  ghost predicate AbortsAt(validators: map<string, Validator>, session: map<string, string>,
                           atoms: seq<seq<Token>>, k: nat) {
    && k < |atoms| && CompoundAtom(atoms[k]) && !AtomTrue(validators, session)(atoms[k])
    && forall j :: 0 <= j < k ==> AtomTrue(validators, session)(atoms[j])
  }

  /** The first false part of the alternative is a compound group. */
  ghost predicate Aborts(validators: map<string, Validator>, session: map<string, string>, alt: seq<Token>) {
    exists k: nat :: AbortsAt(validators, session, Split(alt, COMMA), k)
  }

  lemma {:induction false} PartsVerdict(validators: map<string, Validator>, session: map<string, string>,
                                        atoms: seq<seq<Token>>)
    requires forall a :: a in atoms ==> WellFormedAtom(validators, a)
    ensures AllOf(atoms, AtomTest(validators, Acting(session)))
            == if forall a :: a in atoms ==> AtomTrue(validators, session)(a) then Accepted
               else if exists k: nat :: AbortsAt(validators, session, atoms, k) then Raised else Rejected
  {
    if atoms != [] {
      var rest := atoms[1..];
      assert atoms == [atoms[0]] + rest;
      assert atoms[0] in atoms;
      AtomVerdict(validators, session, atoms[0]);
      PartsVerdict(validators, session, rest);
      AbortsShift(validators, session, atoms);
    }
  }

  /** Where a list of parts aborts, by its first part. */
  lemma AbortsShift(validators: map<string, Validator>, session: map<string, string>, atoms: seq<seq<Token>>)
    requires atoms != []
    ensures (exists k: nat :: AbortsAt(validators, session, atoms, k))
            <==> if AtomTrue(validators, session)(atoms[0])
                 then exists k: nat :: AbortsAt(validators, session, atoms[1..], k)
                 else CompoundAtom(atoms[0])
  {
    if AtomTrue(validators, session)(atoms[0]) {
      if k: nat :| AbortsAt(validators, session, atoms, k) {
        assert AbortsAt(validators, session, atoms[1..], k - 1);
      }
      if k: nat :| AbortsAt(validators, session, atoms[1..], k) {
        assert AbortsAt(validators, session, atoms, k + 1);
      }
    } else if CompoundAtom(atoms[0]) {
      assert AbortsAt(validators, session, atoms, 0);
    }
  }

  lemma AlternativeVerdict(validators: map<string, Validator>, session: map<string, string>, alt: seq<Token>)
    requires forall a :: a in Split(alt, COMMA) ==> WellFormedAtom(validators, a)
    ensures AllOf(Split(alt, COMMA), AtomTest(validators, Acting(session)))
            == if MeansAll(alt, COMMA, AtomTrue(validators, session)) then Accepted
               else if Aborts(validators, session, alt) then Raised else Rejected
  {
    PartsVerdict(validators, session, Split(alt, COMMA));
  }

  /** A true alternative comes before any alternative whose first false part is a compound group. */
  ghost predicate TrueBeforeAbort(validators: map<string, Validator>, session: map<string, string>,
                                  alts: seq<seq<Token>>, i: nat) {
    && i < |alts| && MeansAll(alts[i], COMMA, AtomTrue(validators, session))
    && forall j :: 0 <= j < i ==> !Aborts(validators, session, alts[j])
  }

  ghost predicate TrueWithoutAbort(validators: map<string, Validator>, session: map<string, string>,
                                   alts: seq<seq<Token>>) {
    exists i: nat :: TrueBeforeAbort(validators, session, alts, i)
  }

  /**
    Exactness: on a well-formed rule the evaluator accepts if and only if some alternative is true
    and no alternative before it runs into a false compound group. It never crashes.
  */
  lemma AcceptsIff(validators: map<string, Validator>, session: map<string, string>, ts: seq<Token>)
    requires WellFormedRule(validators, ts)
    ensures Evaluate(validators, Acting(session), ts) in {Accepted, Raised}
    ensures Evaluate(validators, Acting(session), ts).Accepted?
            <==> TrueWithoutAbort(validators, session, Split(ts, BAR))
  {
    var alts := Split(ts, BAR);
    VerdictOfAlternatives(validators, session, alts);
    assert Evaluate(validators, Acting(session), ts) == AnyOf(alts, COMMA, AtomTest(validators, Acting(session)));
  }

  lemma {:induction false} VerdictOfAlternatives(validators: map<string, Validator>, session: map<string, string>,
                                                 alts: seq<seq<Token>>)
    requires forall alt, a :: alt in alts && a in Split(alt, COMMA) ==> WellFormedAtom(validators, a)
    ensures AnyOf(alts, COMMA, AtomTest(validators, Acting(session))) in {Accepted, Raised}
    ensures AnyOf(alts, COMMA, AtomTest(validators, Acting(session))).Accepted?
            <==> TrueWithoutAbort(validators, session, alts)
  {
    if alts != [] {
      var rest := alts[1..];
      assert alts == [alts[0]] + rest;
      assert alts[0] in alts;
      AlternativeVerdict(validators, session, alts[0]);
      VerdictOfAlternatives(validators, session, rest);
      if MeansAll(alts[0], COMMA, AtomTrue(validators, session)) {
        assert TrueBeforeAbort(validators, session, alts, 0);
      } else {
        if i: nat :| TrueBeforeAbort(validators, session, alts, i) {
          assert TrueBeforeAbort(validators, session, rest, i - 1);
        }
        if !Aborts(validators, session, alts[0]) {
          if i: nat :| TrueBeforeAbort(validators, session, rest, i) {
            assert TrueBeforeAbort(validators, session, alts, i + 1);
          }
        }
      }
    }
  }

  /** When every group is a single clause, the evaluator decides the boolean meaning exactly. */
  lemma ExactForSimpleGroups(validators: map<string, Validator>, session: map<string, string>, ts: seq<Token>)
    requires WellFormedRule(validators, ts)
    requires forall alt, a :: alt in Split(ts, BAR) && a in Split(alt, COMMA) ==> !CompoundAtom(a)
    ensures Evaluate(validators, Acting(session), ts).Accepted? <==> Means(validators, session, ts)
  {
    var alts := Split(ts, BAR);
    AcceptsIff(validators, session, ts);
    forall i | 0 <= i < |alts|
      ensures !Aborts(validators, session, alts[i])
    {
      assert alts[i] in alts;
      assert forall k :: 0 <= k < |Split(alts[i], COMMA)| ==> Split(alts[i], COMMA)[k] in Split(alts[i], COMMA);
    }
    if Means(validators, session, ts) {
      var alt :| alt in alts && MeansAll(alt, COMMA, AtomTrue(validators, session));
      var i: nat :| i < |alts| && alts[i] == alt;
      assert TrueBeforeAbort(validators, session, alts, i);
    }
    if TrueWithoutAbort(validators, session, alts) {
      var i: nat :| TrueBeforeAbort(validators, session, alts, i);
      assert alts[i] in alts;
    }
  }

  /**
    The gap is real: a false compound group in front makes the evaluator raise, although a later
    alternative is true.
  */
  lemma FalseGroupHidesTrueAlternative(validators: map<string, Validator>, session: map<string, string>,
                                       text: string, clause: seq<Token>)
    requires Compound(text) && WellFormedGroup(validators, text)
    requires !MeansAny(text, '|', ',', ClauseTrue(validators, session))
    requires BAR !in clause && COMMA !in clause && Groups(clause) == []
    requires ClauseTrue(validators, session)(Show(clause))
    ensures var ts := [Grp(text)] + [BAR] + clause;
            Means(validators, session, ts) && Evaluate(validators, Acting(session), ts) == Raised
  {
    var group := [Grp(text)];
    var ts := group + [BAR] + clause;
    SplitAtFirst(group, clause, BAR);
    SplitWhole(clause, BAR);
    SplitWhole(clause, COMMA);
    SplitWhole(group, COMMA);
    var alts := Split(ts, BAR);
    assert alts == [group, clause];
    assert clause in Split(clause, COMMA) && alts[1] == clause;
    assert clause in alts && MeansAll(clause, COMMA, AtomTrue(validators, session));
    assert group[1..] == [];
    AtomVerdict(validators, session, group);
    assert AllOf(Split(alts[0], COMMA), AtomTest(validators, Acting(session))) == Raised;
  }

  // ----- Crashes -----

  /** Part `k` of alternative `i` crashes, and evaluation gets there. */
  ghost predicate CrashesAt<T>(alts: seq<seq<T>>, comma: T, leaf: seq<T> -> Outcome, crashes: seq<T> -> bool,
                               i: nat, k: nat) {
    && i < |alts| && (forall j :: 0 <= j < i ==> AllOf(Split(alts[j], comma), leaf).Rejected?)
    && CrashesFirst(Split(alts[i], comma), leaf, crashes, k)
  }

  ghost predicate CrashesFirst<T>(parts: seq<seq<T>>, leaf: seq<T> -> Outcome, crashes: seq<T> -> bool, k: nat) {
    k < |parts| && crashes(parts[k]) && forall j :: 0 <= j < k ==> leaf(parts[j]).Accepted?
  }

  /** The first alternative that is not rejected has a crashing part as its first part that is not accepted. */
  ghost predicate CrashesIn<T>(s: seq<T>, bar: T, comma: T, leaf: seq<T> -> Outcome, crashes: seq<T> -> bool) {
    exists i: nat, k: nat :: CrashesAt(Split(s, bar), comma, leaf, crashes, i, k)
  }

  lemma {:induction false} AllOfCrashes<T(!new)>(parts: seq<seq<T>>, leaf: seq<T> -> Outcome, crashes: seq<T> -> bool)
    requires forall a :: crashes(a) <==> leaf(a).Crashed?
    ensures AllOf(parts, leaf).Crashed? <==> exists k: nat :: CrashesFirst(parts, leaf, crashes, k)
  {
    if parts != [] {
      AllOfCrashes(parts[1..], leaf, crashes);
      if crashes(parts[0]) {
        assert CrashesFirst(parts, leaf, crashes, 0);
      } else if leaf(parts[0]).Accepted? {
        if k: nat :| CrashesFirst(parts[1..], leaf, crashes, k) {
          assert CrashesFirst(parts, leaf, crashes, k + 1);
        }
        if k: nat :| CrashesFirst(parts, leaf, crashes, k) {
          assert CrashesFirst(parts[1..], leaf, crashes, k - 1);
        }
      }
    }
  }

  lemma {:induction false} AnyOfCrashes<T(!new)>(alts: seq<seq<T>>, comma: T, leaf: seq<T> -> Outcome,
                                                 crashes: seq<T> -> bool)
    requires forall a :: crashes(a) <==> leaf(a).Crashed?
    ensures AnyOf(alts, comma, leaf).Crashed?
            <==> exists i: nat, k: nat :: CrashesAt(alts, comma, leaf, crashes, i, k)
  {
    if alts != [] {
      var parts := Split(alts[0], comma);
      var o := AllOf(parts, leaf);
      AllOfCrashes(parts, leaf, crashes);
      AnyOfCrashes(alts[1..], comma, leaf, crashes);
      if o.Crashed? {
        var k: nat :| CrashesFirst(parts, leaf, crashes, k);
        assert CrashesAt(alts, comma, leaf, crashes, 0, k);
      } else {
        CrashesLater(alts, comma, leaf, crashes);
      }
    }
  }

  lemma CrashesLater<T(!new)>(alts: seq<seq<T>>, comma: T, leaf: seq<T> -> Outcome, crashes: seq<T> -> bool)
    requires alts != [] && forall a :: crashes(a) <==> leaf(a).Crashed?
    requires !AllOf(Split(alts[0], comma), leaf).Crashed?
    ensures (exists i: nat, k: nat :: CrashesAt(alts, comma, leaf, crashes, i, k))
            <==> && AllOf(Split(alts[0], comma), leaf).Rejected?
                 && exists i: nat, k: nat :: CrashesAt(alts[1..], comma, leaf, crashes, i, k)
  {
    var parts := Split(alts[0], comma);
    AllOfCrashes(parts, leaf, crashes);
    if i: nat, k: nat :| CrashesAt(alts, comma, leaf, crashes, i, k) {
      assert i != 0;
      assert CrashesAt(alts[1..], comma, leaf, crashes, i - 1, k);
    }
    if AllOf(parts, leaf).Rejected? {
      if i: nat, k: nat :| CrashesAt(alts[1..], comma, leaf, crashes, i, k) {
        assert CrashesAt(alts, comma, leaf, crashes, i + 1, k);
      }
    }
  }

  function ClauseCrashes(validators: map<string, Validator>): string -> bool { c => CrashingClause(validators, c) }

  /** A crashing clause, or a group in which evaluation gets to one. */
  ghost predicate CrashingAtom(validators: map<string, Validator>, session: map<string, string>, a: seq<Token>) {
    if Groups(a) == [] then CrashingClause(validators, Show(a))
    else
      && |a| == 1 && a[0].Grp?
      && if Compound(a[0].text)
         then CrashesIn(a[0].text, '|', ',', ClauseTest(validators, Acting(session)), ClauseCrashes(validators))
         else CrashingClause(validators, a[0].text)
  }

  ghost function AtomCrashes(validators: map<string, Validator>, session: map<string, string>): seq<Token> -> bool {
    a => CrashingAtom(validators, session, a)
  }

  lemma AtomCrashesIff(validators: map<string, Validator>, session: map<string, string>, a: seq<Token>)
    ensures AtomTest(validators, Acting(session))(a).Crashed? <==> AtomCrashes(validators, session)(a)
  {
    forall c
      ensures ClauseTest(validators, Acting(session))(c).Crashed? <==> ClauseCrashes(validators)(c)
    {
      ClauseCrashesIff(validators, session, c);
    }
    if Groups(a) != [] && |a| == 1 && a[0].Grp? && Compound(a[0].text) {
      AnyOfCrashes(Split(a[0].text, '|'), ',', ClauseTest(validators, Acting(session)), ClauseCrashes(validators));
    } else if Groups(a) == [] {
      ClauseCrashesIff(validators, session, Show(a));
    } else if |a| == 1 && a[0].Grp? {
      ClauseCrashesIff(validators, session, a[0].text);
    }
  }

  /**
    When a rule crashes for a user, stored or not: its first alternative that is not rejected has a
    crashing clause, or a group that runs into one, as its first part that is not accepted.
  */
  lemma RuleCrashesIff(validators: map<string, Validator>, session: map<string, string>, ts: seq<Token>)
    ensures Evaluate(validators, Acting(session), ts).Crashed?
            <==> CrashesIn(ts, BAR, COMMA, AtomTest(validators, Acting(session)), AtomCrashes(validators, session))
  {
    forall a: seq<Token>
      ensures AtomCrashes(validators, session)(a) <==> AtomTest(validators, Acting(session))(a).Crashed?
    {
      AtomCrashesIff(validators, session, a);
    }
    AnyOfCrashes(Split(ts, BAR), COMMA, AtomTest(validators, Acting(session)), AtomCrashes(validators, session));
  }

  // ----- Storing a rule -----

  /** No clause is merely rejected while a rule is being stored, so only its first alternative counts. */
  lemma StoringChecksFirstAlternative(validators: map<string, Validator>, ts: seq<Token>)
    ensures Evaluate(validators, Creating, ts)
            == AllOf(Split(Split(ts, BAR)[0], COMMA), AtomTest(validators, Creating))
  {
    forall a: seq<Token>
      ensures !AtomTest(validators, Creating)(a).Rejected?
    {
      if Groups(a) != [] && |a| == 1 && a[0].Grp? && Compound(a[0].text) {
        AnyOfAccepted(Split(a[0].text, '|'), ',', ClauseTest(validators, Creating));
      }
    }
    NeverRejected(Split(Split(ts, BAR)[0], COMMA), AtomTest(validators, Creating));
  }

  lemma {:induction false} NeverRejected<T>(parts: seq<seq<T>>, leaf: seq<T> -> Outcome)
    requires forall p :: !leaf(p).Rejected?
    ensures !AllOf(parts, leaf).Rejected?
  {
    if parts != [] {
      NeverRejected(parts[1..], leaf);
    }
  }

  lemma {:induction false} FirstPart<T>(a: seq<T>, b: seq<T>, sep: T)
    ensures Split(a + [sep] + b, sep)[0] == Split(a, sep)[0]
  {
    if a == [] {
      assert a + [sep] + b == [sep] + b;
    } else {
      assert (a + [sep] + b)[1..] == a[1..] + [sep] + b;
      FirstPart(a[1..], b, sep);
    }
  }

  /** Whatever follows the first alternative of a stored rule was never looked at. */
  lemma StoredTailUnchecked(validators: map<string, Validator>, ts: seq<Token>, tail: seq<Token>)
    ensures Evaluate(validators, Creating, ts + [BAR] + tail) == Evaluate(validators, Creating, ts)
  {
    StoringChecksFirstAlternative(validators, ts);
    StoringChecksFirstAlternative(validators, ts + [BAR] + tail);
    FirstPart(ts, tail, BAR);
  }

  /** The clauses of a stored rule's first alternative are well formed, down to the first alternatives of its groups. */
  lemma StoredAtomsReadable(validators: map<string, Validator>, ts: seq<Token>, a: seq<Token>)
    requires Evaluate(validators, Creating, ts).Accepted?
    requires a in Split(Split(ts, BAR)[0], COMMA)
    ensures if Groups(a) == [] then WellFormedClause(validators, Show(a))
            else && |a| == 1 && a[0].Grp?
                 && forall c :: c in Split(Split(a[0].text, '|')[0], ',') ==> WellFormedClause(validators, c)
  {
    StoringChecksFirstAlternative(validators, ts);
    AllOfAccepted(Split(Split(ts, BAR)[0], COMMA), AtomTest(validators, Creating));
    assert AtomTest(validators, Creating)(a).Accepted?;
    if Groups(a) == [] {
      StoredClauseIsWellFormed(validators, Show(a));
    } else {
      StoredGroupReadable(validators, a[0].text);
    }
  }

  lemma StoredGroupReadable(validators: map<string, Validator>, text: string)
    requires GroupOutcome(validators, Creating, text).Accepted?
    ensures forall c :: c in Split(Split(text, '|')[0], ',') ==> WellFormedClause(validators, c)
  {
    var first := Split(text, '|')[0];
    if Compound(text) {
      NeverRejected(Split(first, ','), ClauseTest(validators, Creating));
      AllOfAccepted(Split(first, ','), ClauseTest(validators, Creating));
      forall c | c in Split(first, ',')
        ensures WellFormedClause(validators, c)
      {
        assert ClauseTest(validators, Creating)(c).Accepted?;
        StoredClauseIsWellFormed(validators, c);
      }
    } else {
      SplitWhole(text, '|');
      SplitWhole(text, ',');
      StoredClauseIsWellFormed(validators, text);
    }
  }

  /** The alternatives of a group after the first. */
  ghost predicate WellFormedGroupTail(validators: map<string, Validator>, text: string) {
    forall alt, c :: alt in Split(text, '|')[1..] && c in Split(alt, ',') ==> WellFormedClause(validators, c)
  }

  /** What storing does not look at: the alternatives after the first, of the rule and of its groups. */
  ghost predicate WellFormedTail(validators: map<string, Validator>, ts: seq<Token>) {
    && (forall alt, a :: alt in Split(ts, BAR)[1..] && a in Split(alt, COMMA) ==> WellFormedAtom(validators, a))
    && (forall a: seq<Token> :: a in Split(Split(ts, BAR)[0], COMMA) && |a| == 1 && a[0].Grp?
                    ==> WellFormedGroupTail(validators, a[0].text))
  }

  lemma HeadOrTail<T>(alts: seq<T>, alt: T)
    requires alts != []
    ensures alt in alts <==> alt == alts[0] || alt in alts[1..]
  {
    assert alts == [alts[0]] + alts[1..];
  }

  /** A stored atom needs only the alternatives of its group that storing did not look at. */
  lemma StoredAtomWellFormedIff(validators: map<string, Validator>, ts: seq<Token>, a: seq<Token>)
    requires Evaluate(validators, Creating, ts).Accepted?
    requires a in Split(Split(ts, BAR)[0], COMMA)
    ensures WellFormedAtom(validators, a)
            <==> (|a| == 1 && a[0].Grp? ==> WellFormedGroupTail(validators, a[0].text))
  {
    StoredAtomsReadable(validators, ts, a);
    if Groups(a) != [] {
      var alts := Split(a[0].text, '|');
      forall alt
        ensures alt in alts <==> alt == alts[0] || alt in alts[1..]
      {
        HeadOrTail(alts, alt);
      }
      assert WellFormedGroup(validators, a[0].text) <==> WellFormedGroupTail(validators, a[0].text);
    }
  }

  /**
    A rule that was stored can be evaluated for every user, all its clauses being well formed, if and
    only if the alternatives after the first are, in the rule and in the groups of its first alternative.
  */
  lemma StoredIsWellFormedIff(validators: map<string, Validator>, ts: seq<Token>)
    requires Evaluate(validators, Creating, ts).Accepted?
    ensures WellFormedRule(validators, ts) <==> WellFormedTail(validators, ts)
  {
    var alts := Split(ts, BAR);
    forall alt
      ensures alt in alts <==> alt == alts[0] || alt in alts[1..]
    {
      HeadOrTail(alts, alt);
    }
    forall a: seq<Token> | a in Split(alts[0], COMMA)
      ensures WellFormedAtom(validators, a)
              <==> (|a| == 1 && a[0].Grp? ==> WellFormedGroupTail(validators, a[0].text))
    {
      StoredAtomWellFormedIff(validators, ts, a);
    }
  }

  /** What `validate_new_acl` lets through. */
  ghost predicate Storable(validators: map<string, Validator>, values: string) {
    && !IsBlank(values) && MatchesPattern(values) && Balanced(values)
    && Evaluate(validators, Creating, Tokenize(values)).Accepted?
  }

  lemma NoBarInToken(t: Token)
    requires '|' !in ShowToken(t)
    ensures t != BAR && (t.Grp? ==> '|' !in t.text)
  {
    if t.Ch? {
      assert t.c in ShowToken(t);
    } else {
      assert forall c :: c in t.text ==> c in "(" + t.text + ")";
    }
  }

  /** A bar in a rule's tokens is a bar in its text. */
  lemma {:induction false} NoBarInTokens(ts: seq<Token>)
    requires '|' !in Show(ts)
    ensures BAR !in ts && forall t :: t in ts && t.Grp? ==> '|' !in t.text
  {
    if ts != [] {
      var head, rest := ShowToken(ts[0]), Show(ts[1..]);
      assert Show(ts) == head + rest;
      assert '|' !in head && '|' !in rest;
      NoBarInTokens(ts[1..]);
      NoBarInToken(ts[0]);
      forall t | t in ts
        ensures t == ts[0] || t in ts[1..]
      {
        HeadOrTail(ts, t);
      }
    }
  }

  /** A stored rule without a bar, outside its groups or inside, is well formed. */
  lemma StoredWithoutBars(validators: map<string, Validator>, values: string)
    requires Storable(validators, values) && '|' !in values
    ensures WellFormedRule(validators, Tokenize(values)) && BAR !in Tokenize(values)
  {
    var ts := Tokenize(values);
    RuleHasNoAt(values);
    BalancedRecursive(values);
    TokensOfBalanced(values);
    NoBarInTokens(ts);
    SplitWhole(ts, BAR);
    forall a: seq<Token> | a in Split(ts, COMMA) && |a| == 1 && a[0].Grp?
      ensures WellFormedGroupTail(validators, a[0].text)
    {
      var i :| 0 <= i < |Split(ts, COMMA)| && Split(ts, COMMA)[i] == a;
      SplitElements(ts, COMMA, i);
      SplitWhole(a[0].text, '|');
    }
    StoredIsWellFormedIff(validators, ts);
  }

  /** A well-formed rule of one alternative is decided exactly. */
  lemma ExactWithoutBars(validators: map<string, Validator>, session: map<string, string>, ts: seq<Token>)
    requires WellFormedRule(validators, ts) && BAR !in ts
    ensures Evaluate(validators, Acting(session), ts).Accepted? <==> Means(validators, session, ts)
  {
    SplitWhole(ts, BAR);
    var alts := Split(ts, BAR);
    AcceptsIff(validators, session, ts);
    assert alts[0] in alts;
    if MeansAll(ts, COMMA, AtomTrue(validators, session)) {
      assert TrueBeforeAbort(validators, session, alts, 0);
    }
  }

  /** A clause `name=` with nothing behind the equal sign makes the evaluation crash. */
  lemma EmptyValueCrashes(validators: map<string, Validator>, session: map<string, string>, name: string)
    requires '=' !in name && name in validators && name != "custom"
    ensures TestClause(validators, Acting(session), name + "=").Crashed?
    ensures !WellFormedClause(validators, name + "=")
  {
    SplitAtFirst(name, "", '=');
    assert name + "=" == name + ['='] + "";
    ClauseDecidesIffWellFormed(validators, session, name + "=");
  }

  /** A clause as a rule of its own: one alternative of one part. */
  lemma ClauseAsRule(validators: map<string, Validator>, mode: Mode, clause: string)
    requires PlainText(clause) && !Compound(clause)
    ensures var ts := Plainly(clause);
            && BAR !in ts && Split(ts, BAR) == [ts] && Split(ts, COMMA) == [ts]
            && Groups(ts) == [] && Show(ts) == clause
            && AtomTest(validators, mode)(ts) == TestClause(validators, mode, clause)
  {
    TokenizePlain(clause);
    SplitWhole(Plainly(clause), BAR);
    SplitWhole(Plainly(clause), COMMA);
  }

  lemma LoneClause(validators: map<string, Validator>, mode: Mode, clause: string)
    requires PlainText(clause) && !Compound(clause)
    ensures AllOf(Split(Plainly(clause), COMMA), AtomTest(validators, mode)) == TestClause(validators, mode, clause)
  {
    ClauseAsRule(validators, mode, clause);
    assert [Plainly(clause)][1..] == [];
  }

  /** The second of two alternatives decides when the first rejects. */
  lemma {:induction false} SecondDecides(ts: seq<Token>, last: seq<Token>, leaf: seq<Token> -> Outcome)
    requires BAR !in ts && BAR !in last
    requires AllOf(Split(ts, COMMA), leaf).Rejected? && AllOf(Split(last, COMMA), leaf).Crashed?
    ensures OrOfAnds(ts + [BAR] + last, BAR, COMMA, leaf).Crashed?
  {
    SplitAtFirst(ts, last, BAR);
    SplitWhole(last, BAR);
    var alts := Split(ts + [BAR] + last, BAR);
    assert alts == [ts] + [last] && alts[1..] == [last];
    assert AnyOf([last], COMMA, leaf).Crashed?;
  }

  /**
    With a bar it may be otherwise: after a stored alternative that rejects a user, a clause `name=`
    with nothing behind the equal sign is stored too, and then crashes the evaluation for that user.
  */
  lemma {:induction false} StoredRuleCanCrash(validators: map<string, Validator>, session: map<string, string>,
                           ts: seq<Token>, name: string)
    requires Evaluate(validators, Creating, ts).Accepted? && BAR !in ts
    requires AllOf(Split(ts, COMMA), AtomTest(validators, Acting(session))).Rejected?
    requires PlainText(name) && !Compound(name) && '=' !in name && name in validators && name != "custom"
    ensures var longer := ts + [BAR] + Plainly(name + "=");
            && Evaluate(validators, Creating, longer).Accepted?
            && Evaluate(validators, Acting(session), longer).Crashed?
  {
    var last := Plainly(name + "=");
    var leaf := AtomTest(validators, Acting(session));
    StoredTailUnchecked(validators, ts, last);
    EmptyValueCrashes(validators, session, name);
    ClauseAsRule(validators, Acting(session), name + "=");
    LoneClause(validators, Acting(session), name + "=");
    SecondDecides(ts, last, leaf);
  }

  /** A clause that is stored and rejects a user. */
  lemma WrongValueRejects(validators: map<string, Validator>, session: map<string, string>, name: string, value: string)
    requires name in validators && validators[name] == StrInCsv(None) && name != "custom" && '=' !in name
    requires value != "" && '=' !in value && ',' !in value && value[0] != '!' && !IsBlank(value)
    requires name in session && session[name] != value
    ensures TestClause(validators, Creating, name + "=" + value).Accepted?
    ensures TestClause(validators, Acting(session), name + "=" + value).Rejected?
  {
    SplitAtFirst(name, value, '=');
    SplitWhole(value, '=');
    SplitWhole(value, ',');
    assert name + "=" + value == name + ['='] + value;
  }

  lemma ClauseStored(validators: map<string, Validator>, clause: string)
    requires PlainText(clause) && !Compound(clause) && TestClause(validators, Creating, clause).Accepted?
    ensures Evaluate(validators, Creating, Plainly(clause)).Accepted? && BAR !in Plainly(clause)
  {
    ClauseAsRule(validators, Creating, clause);
    LoneClause(validators, Creating, clause);
    StoringChecksFirstAlternative(validators, Plainly(clause));
  }

  lemma PlainRuleFits(s: string)
    requires s != "" && forall c :: c in s ==> RuleChar(c) && c !in ['(', ')']
    ensures !IsBlank(s) && MatchesPattern(s) && Balanced(s) && Tokenize(s) == Plainly(s)
  {
    assert s[0] in s && !IsSpace(s[0]);
    assert PlainText(s);
    TokenizePlain(s);
    BalancedRecursive(s);
  }

  lemma PlainlyAround(a: string, c: char, b: string)
    ensures Plainly(a + [c] + b) == Plainly(a) + [Ch(c)] + Plainly(b)
  {
  }

  predicate WordChar(c: char) { '0' <= c <= '9' || 'a' <= c <= 'z' || c == '_' }

  predicate Word(s: string) { s != "" && forall c :: c in s ==> WordChar(c) }

  lemma WordIsPlain(s: string)
    requires Word(s)
    ensures PlainText(s) && !Compound(s) && '=' !in s && s[0] != '!' && !IsBlank(s)
  {
    assert WordChar(s[0]);
    assert s[0] in s;
  }

  lemma WordsFit(name: string, value: string)
    requires Word(name) && Word(value)
    ensures var rule := name + "=" + value + ['|'] + (name + "=");
            !IsBlank(rule) && MatchesPattern(rule) && Balanced(rule) && Tokenize(rule) == Plainly(rule)
    ensures PlainText(name + "=" + value) && !Compound(name + "=" + value)
  {
    WordIsPlain(name);
    WordIsPlain(value);
    PlainRuleFits(name + "=" + value + ['|'] + (name + "="));
  }

  /** For instance `g=m|g=` for a user whose `g` is `f`. */
  lemma {:induction false} StoredRuleCrashes(name: string, value: string, other: string)
    requires Word(name) && Word(value) && name != "custom" && other != value
    ensures var validators := map[name := StrInCsv(None)];
            var rule := name + "=" + value + ['|'] + (name + "=");
            && Storable(validators, rule)
            && Evaluate(validators, Acting(map[name := other]), Tokenize(rule)).Crashed?
  {
    var validators: map<string, Validator> := map[name := StrInCsv(None)];
    var session := map[name := other];
    var first, last := name + "=" + value, name + "=";
    WordIsPlain(name);
    WordIsPlain(value);
    WordsFit(name, value);
    WrongValueRejects(validators, session, name, value);
    ClauseStored(validators, first);
    LoneClause(validators, Acting(session), first);
    StoredRuleCanCrash(validators, session, Plainly(first), name);
    PlainlyAround(first, '|', last);
  }

  // ----- The validator -----

  predicate RuleChar(c: char) {
    '0' <= c <= '9' || 'a' <= c <= 'z' || c in ['!', '|', ',', '(', ')', ':', '=', '_']
  }

  /** `^[0-9a-z!|,():=_]*$`, where `$` also matches before a final newline. */
  predicate MatchesPattern(s: string) {
    var body := if s != "" && s[|s| - 1] == '\n' then s[..|s| - 1] else s;
    forall c :: c in body ==> RuleChar(c)
  }

  /** The codes of the digits, of the small letters, and of `! ( ) , : = _ |`. */
  predicate AllowedCode(code: int) {
    48 <= code <= 57 || 97 <= code <= 122 || code in {33, 40, 41, 44, 58, 61, 95, 124}
  }

  /** The alphabet of rules; one newline at the end is let through. */
  lemma PatternIs(s: string)
    ensures MatchesPattern(s)
            <==> forall i :: 0 <= i < |s| ==> AllowedCode(s[i] as int) || (i == |s| - 1 && s[i] == '\n')
  {
    assert forall c :: RuleChar(c) <==> AllowedCode(c as int);
    if s != "" && s[|s| - 1] == '\n' {
      var body := s[..|s| - 1];
      assert (forall c :: c in body ==> RuleChar(c)) <==> forall i :: 0 <= i < |body| ==> RuleChar(body[i]);
      assert forall i :: 0 <= i < |body| ==> body[i] == s[i];
    } else {
      assert (forall c :: c in s ==> RuleChar(c)) <==> forall i :: 0 <= i < |s| ==> RuleChar(s[i]);
    }
  }

  /** Texts of word characters and a few others. */
  lemma ClauseFits(name: string, value: string)
    requires Word(name) && forall c :: c in value ==> WordChar(c) || c == ':'
    ensures var clause := name + ['='] + value;
            && PlainText(clause) && !Compound(clause)
            && !IsBlank(clause) && MatchesPattern(clause) && Balanced(clause) && Tokenize(clause) == Plainly(clause)
  {
    var clause := name + ['='] + value;
    forall c | c in clause
      ensures RuleChar(c) && PlainChar(c) && c !in ['|', ',']
    {
      assert c in name || c == '=' || c in value;
    }
    PlainRuleFits(clause);
  }

  lemma NumberChars(n: nat)
    ensures forall c :: c in Dec(n) ==> WordChar(c)
    ensures Dec(n)[0] != '!' && ':' !in Dec(n) && '=' !in Dec(n) && IsNumber(Dec(n))
  {
    assert forall c :: c in Dec(n) ==> IsDigit(c);
    assert IsDigit(Dec(n)[0]);
  }

  /** A range of numbers can be stored for an ACL type with a word for its name. */
  lemma RangeCanBeStored(validators: map<string, Validator>, name: string, a: nat, b: nat)
    requires Word(name) && name in validators && validators[name] == Range && name != "custom"
    ensures Storable(validators, name + ['='] + (Dec(a) + [':'] + Dec(b)))
  {
    var value := Dec(a) + [':'] + Dec(b);
    WordIsPlain(name);
    NumberChars(a);
    NumberChars(b);
    NewRangeIff(Dec(a), Dec(b));
    ClauseFits(name, value);
    ClauseMeaning(validators, map[], name, value);
    ClauseStored(validators, name + ['='] + value);
  }

  lemma RuleHasNoAt(s: string)
    requires MatchesPattern(s)
    ensures '@' !in s
  {
    var body := if s != "" && s[|s| - 1] == '\n' then s[..|s| - 1] else s;
    assert !RuleChar('@');
    assert s == body || s == body + ['\n'];
  }

  /** The parenthesis check: it passes exactly the balanced rules. */
  method CheckParens(values: string) returns (ok: bool)
    ensures ok <==> Balanced(values)
  {
    BalancedRecursive(values);
    if '(' !in values && ')' !in values {
      BalancedOverPlain(values, "", false);
      assert values + "" == values;
      return true;
    }
    if Count(values, '(') != Count(values, ')') {
      assert Depth(values) != 0;
      return false;
    }
    var lefts, rights := 0, 0;
    assert values[..0] == "";
    for i := 0 to |values|
      invariant lefts == Count(values[..i], '(') && rights == Count(values[..i], ')')
      invariant forall k :: 0 <= k <= i ==> 0 <= Depth(values[..k]) <= 1
    {
      assert values[..i + 1] == values[..i] + [values[i]];
      CountConcat(values[..i], [values[i]], '(');
      CountConcat(values[..i], [values[i]], ')');
      assert [values[i]][1..] == "";
      if values[i] == '(' {
        lefts := lefts + 1;
      } else if values[i] == ')' {
        rights := rights + 1;
      }
      if lefts - rights > 1 || rights - lefts > 1 || rights > lefts {
        assert !(0 <= Depth(values[..i + 1]) <= 1);
        return false;
      }
    }
    assert values[..|values|] == values;
    ok := true;
  }

  /** `validate_new_acl`: the verdict on a rule that is about to be stored. */
  method ValidateNewAcl(validators: map<string, Validator>, values: string) returns (o: Outcome)
    ensures o.Accepted? <==> Storable(validators, values)
    ensures o.Accepted?
            <==> && !IsBlank(values) && MatchesPattern(values) && Balanced(values)
                 && AllOf(Split(Split(Tokenize(values), BAR)[0], COMMA), AtomTest(validators, Creating)).Accepted?
    ensures o.Accepted? ==> '@' !in values
  {
    if IsBlank(values) || !MatchesPattern(values) {
      return Raised;
    }
    var balanced := CheckParens(values);
    if !balanced {
      return Raised;
    }
    BalancedRecursive(values);
    RuleHasNoAt(values);
    StoringChecksFirstAlternative(validators, Tokenize(values));
    var run := new PatternRun(validators, Creating);
    o := run.SplitAndTest(values);
  }

  /** Calling the validator for a user's action; a ValidationException is a refusal, a crash escapes. */
  method Call(validators: map<string, Validator>, session: map<string, string>, values: string)
    returns (allowed: bool, crashed: bool)
    requires Balanced(values) && '@' !in values
    ensures allowed <==> Evaluate(validators, Acting(session), Tokenize(values)).Accepted?
    ensures crashed <==> Evaluate(validators, Acting(session), Tokenize(values)).Crashed?
    ensures allowed ==> Means(validators, session, Tokenize(values))
    ensures WellFormedRule(validators, Tokenize(values)) ==> !crashed
    ensures Storable(validators, values) && '|' !in values
            ==> !crashed && (allowed <==> Means(validators, session, Tokenize(values)))
  {
    BalancedRecursive(values);
    if Storable(validators, values) && '|' !in values {
      StoredWithoutBars(validators, values);
      ExactWithoutBars(validators, session, Tokenize(values));
    }
    var run := new PatternRun(validators, Acting(session));
    var o := run.SplitAndTest(values);
    allowed, crashed := o.Accepted?, o.Crashed?;
    if allowed {
      AcceptedMeansTrue(validators, session, Tokenize(values));
    }
    if WellFormedRule(validators, Tokenize(values)) {
      AcceptsIff(validators, session, Tokenize(values));
    }
  }
}
