/**
  One clause of a custom ACL rule, `type=value` or `type=!value`, and the
  validators it is handed to.
*/
module AclClauses {
  import opened Strings

  /** The validator configured for an ACL type. */
  datatype Validator =
    | Range
    | StrInCsv(allowed: Option<seq<string>>)
    | Flag(holds: bool)  // a yes/no question about the user, such as "is admin"
    | Disallow
    | Unusable           // configured, but not an ACL validator

  /** Either a new rule is being stored, or a user's action is checked against his session. */
  datatype Mode = Creating | Acting(session: map<string, string>)

  /** Raised is a ValidationException; Crashed is any other exception. */
  datatype Outcome = Accepted | Rejected | Raised | Crashed

  function Verdict(b: bool): Outcome { if b then Accepted else Rejected }

  // ----- Range values -----

  datatype Bounds = Bounds(low: Option<int>, high: Option<int>) {
    predicate Holds(v: int) {
      (low.None? || low.value <= v) && (high.None? || v <= high.value)
    }
  }

  /** An empty side of the colon is no bound. */
  predicate BoundOk(s: string) { s == "" || ParseInt(s).Some? }

  function Bound(s: string): Option<int> { if s == "" then None else ParseInt(s) }

  predicate RangeReadable(value: string) {
    ':' in value &&
    var i := IndexOf(value, ':');
    BoundOk(value[..i]) && BoundOk(value[i + 1..])
  }

  function RangeOf(value: string): Bounds
    requires RangeReadable(value)
  {
    var i := IndexOf(value, ':');
    Bounds(Bound(value[..i]), Bound(value[i + 1..]))
  }

  function TestRange(value: string, sessionValue: Option<string>, negated: bool): Outcome {
    if IsBlank(value) then Rejected
    else if !RangeReadable(value) then Crashed
    else if sessionValue.None? || IsBlank(sessionValue.value) || ParseInt(sessionValue.value).None? then Rejected
    else
      var Bounds(low, high) := RangeOf(value);
      var v := ParseInt(sessionValue.value).value;
      if negated then
        if low.Some? && high.Some? then Verdict(!(low.value <= v <= high.value))
        else if low.Some? && low.value <= v then Rejected
        else if high.Some? && high.value >= v then Rejected
        else Accepted
      else if low.Some? && low.value > v then Rejected
      else if high.Some? && high.value < v then Rejected
      else Accepted
  }

  // ----- Values from a comma separated list -----

  function TestStrInCsv(value: string, sessionValue: Option<string>, negated: bool): Outcome {
    if IsBlank(value) then Accepted
    else if sessionValue.None? then Rejected
    else if negated then Verdict(sessionValue.value !in Split(value, ','))
    else Verdict(sessionValue.value in Split(value, ','))
  }

  /** What the validator says of a user whose session holds `sessionValue` for the ACL type. */
  function Validate(v: Validator, value: string, sessionValue: Option<string>, negated: bool): Outcome {
    match v
    case Range => TestRange(value, sessionValue, negated)
    case StrInCsv(_) => TestStrInCsv(value, sessionValue, negated)
    case Flag(holds) => Verdict(if negated then !holds else holds)
    case Disallow => Rejected
    case Unusable => Raised
  }

  /** `GenericValidator.is_digit`: a sign is allowed. */
  predicate IsNumber(s: string) {
    s != "" &&
    if s[0] in ['-', '+'] then s[1..] != "" && IsDigits(s[1..]) else IsDigits(s)
  }

  /** `validate_new_acl` of the single-value validators. */
  predicate NewValueOk(v: Validator, value: string) {
    match v
    case Range =>
      !IsBlank(value) && ':' in value &&
      (var i := IndexOf(value, ':');
       (i == 0 || IsNumber(value[..i])) && (i + 1 == |value| || IsNumber(value[i + 1..])))
    case StrInCsv(allowed) =>
      allowed.None? || IsBlank(value) || forall p :: p in Split(value, ',') ==> p in allowed.value
    case _ => true
  }

  /** `_test_a_clause` */
  function TestClause(validators: map<string, Validator>, mode: Mode, clause: string): Outcome {
    var sides := Split(clause, '=');
    if '=' !in clause || |sides| != 2 then Raised
    else
      var aclType, value := sides[0], sides[1];
      if aclType !in validators || aclType == "custom" then Raised
      else if value == "" then Crashed
      else
        var negated := value[0] == '!';
        var plain := if negated then value[1..] else value;
        match mode
        case Creating =>
          if validators[aclType].Unusable? || !NewValueOk(validators[aclType], plain) then Raised else Accepted
        case Acting(session) =>
          Validate(validators[aclType], plain,
                   if aclType in session then Some(session[aclType]) else None, negated)
  }

  /** A clause that can be read, whoever acts: the type is known and the value parses. */
  predicate WellFormedClause(validators: map<string, Validator>, clause: string) {
    var sides := Split(clause, '=');
    |sides| == 2 &&
    sides[0] in validators && sides[0] != "custom" && sides[1] != "" &&
    var plain := if sides[1][0] == '!' then sides[1][1..] else sides[1];
    match validators[sides[0]]
    case Range => IsBlank(plain) || RangeReadable(plain)
    case Unusable => false
    case _ => true
  }

  /** A clause gives a plain yes or no exactly when it is well formed, whatever the session holds. */
  lemma ClauseDecidesIffWellFormed(validators: map<string, Validator>, session: map<string, string>, clause: string)
    ensures TestClause(validators, Acting(session), clause) in {Accepted, Rejected}
            <==> WellFormedClause(validators, clause)
  {
    if '=' !in clause {
      SplitWhole(clause, '=');
    }
  }

  /** A clause on which the program raises something else than a ValidationException, whoever acts. */
  predicate CrashingClause(validators: map<string, Validator>, clause: string) {
    var sides := Split(clause, '=');
    |sides| == 2 && sides[0] in validators && sides[0] != "custom" &&
    (sides[1] == "" ||
     var plain := if sides[1][0] == '!' then sides[1][1..] else sides[1];
     validators[sides[0]].Range? && !IsBlank(plain) && !RangeReadable(plain))
  }

  /** A clause crashes for want of a value or of a readable range, whatever the session holds. */
  lemma ClauseCrashesIff(validators: map<string, Validator>, session: map<string, string>, clause: string)
    ensures TestClause(validators, Acting(session), clause).Crashed? <==> CrashingClause(validators, clause)
  {
    if '=' !in clause {
      SplitWhole(clause, '=');
    }
  }

  /** When `type=!value` is the complement of `type=value` for a given session value. */
  predicate Complements(v: Validator, value: string, sessionValue: Option<string>) {
    match v
    case Range =>
      value != ":" && !IsBlank(value) &&
      sessionValue.Some? && !IsBlank(sessionValue.value) && ParseInt(sessionValue.value).Some?
    case StrInCsv(_) => !IsBlank(value) && sessionValue.Some?
    case Flag(_) => true
    case _ => false
  }

  /**
    Negation means "not" exactly under `Complements`. It fails for the open range `:`, which
    accepts everybody negated or not, for a blank value, and for a user without the session value.
  */
  lemma NegationIsComplement(v: Validator, value: string, sessionValue: Option<string>)
    requires Validate(v, value, sessionValue, false) in {Accepted, Rejected}
    ensures (Validate(v, value, sessionValue, true).Accepted? <==> !Validate(v, value, sessionValue, false).Accepted?)
            <==> Complements(v, value, sessionValue)
  {
    if v.Range? && RangeReadable(value) {
      assert RangeOf(value) == Bounds(None, None) ==> value == ":" by {
        var i := IndexOf(value, ':');
        if value[..i] == "" && value[i + 1..] == "" {
          assert value == value[..i] + [':'] + value[i + 1..];
        }
      }
      assert value == ":" ==> IndexOf(value, ':') == 0;
    }
  }

  /** A readable range accepts exactly the numbers within its bounds, open sides included. */
  lemma RangeMeaning(value: string, sessionValue: string)
    requires !IsBlank(value) && RangeReadable(value)
    requires !IsBlank(sessionValue) && ParseInt(sessionValue).Some?
    ensures TestRange(value, Some(sessionValue), false).Accepted?
            <==> RangeOf(value).Holds(ParseInt(sessionValue).value)
    ensures TestRange(value, Some(sessionValue), true).Accepted?
            <==> value == ":" || !RangeOf(value).Holds(ParseInt(sessionValue).value)
  {
    NegationIsComplement(Range, value, Some(sessionValue));
  }

  // ----- What the validators mean -----

  predicate SpellsBound(s: string, bound: Option<int>) {
    if bound.None? then s == "" else s != "" && ParseInt(s) == bound
  }

  /** A lower bound, a colon, an upper bound; an empty side is no bound. */
  ghost predicate SpellsRange(value: string, low: Option<int>, high: Option<int>) {
    exists a: string, b: string :: SpellsSides(value, a, b) && SpellsBound(a, low) && SpellsBound(b, high)
  }

  predicate SpellsSides(value: string, a: string, b: string) { ':' !in a && value == a + [':'] + b }

  ghost predicate Within(value: string, low: Option<int>, high: Option<int>, n: int) {
    && SpellsRange(value, low, high)
    && (low.Some? ==> low.value <= n) && (high.Some? ==> n <= high.value)
  }

  /** The text is a number within the bounds that the value spells. */
  ghost predicate InRange(value: string, text: string) {
    ParseInt(text).Some? && exists low, high :: Within(value, low, high, ParseInt(text).value)
  }

  lemma SpellsOnce(value: string, low: Option<int>, high: Option<int>)
    requires SpellsRange(value, low, high)
    ensures RangeReadable(value) && RangeOf(value) == Bounds(low, high) && !IsBlank(value)
  {
    var a: string, b: string :| SpellsSides(value, a, b) && SpellsBound(a, low) && SpellsBound(b, high);
    CutAtFirst(a, ':', b);
    assert ':' in value && !IsSpace(':');
  }

  lemma BoundSpells(s: string)
    requires BoundOk(s)
    ensures SpellsBound(s, Bound(s))
  {
  }

  lemma ReadableSpells(value: string)
    requires RangeReadable(value)
    ensures SpellsRange(value, RangeOf(value).low, RangeOf(value).high)
  {
    var i := IndexOf(value, ':');
    var a, b := value[..i], value[i + 1..];
    assert SpellsSides(value, a, b) by {
      CutAt(value, i);
    }
    BoundSpells(a);
    BoundSpells(b);
  }

  lemma UnreadableSpellsNothing(value: string)
    ensures !RangeReadable(value) <==> forall low, high :: !SpellsRange(value, low, high)
  {
    if RangeReadable(value) {
      ReadableSpells(value);
    }
    forall low, high | SpellsRange(value, low, high)
      ensures RangeReadable(value)
    {
      SpellsOnce(value, low, high);
    }
  }

  lemma BlankIsNoNumber(s: string)
    requires IsBlank(s)
    ensures ParseInt(s).None?
  {
    BlankTrims(s);
    SplitWhole("", '_');
    assert "" in Split("", '_');
  }

  /** Over all texts: whom a range accepts, and whom it accepts negated. */
  lemma RangeDecides(value: string, text: string)
    ensures TestRange(value, Some(text), false).Accepted? <==> InRange(value, text)
    ensures TestRange(value, Some(text), true).Accepted?
            <==> && ParseInt(text).Some? && (exists low, high :: SpellsRange(value, low, high))
                 && (value == ":" || !InRange(value, text))
  {
    if IsBlank(text) {
      BlankIsNoNumber(text);
    }
    if RangeReadable(value) {
      ReadableSpells(value);
      SpellsOnce(value, RangeOf(value).low, RangeOf(value).high);
      forall low, high | SpellsRange(value, low, high)
        ensures Bounds(low, high) == RangeOf(value)
      {
        SpellsOnce(value, low, high);
      }
      if ParseInt(text).Some? {
        RangeMeaning(value, text);
        var n := ParseInt(text).value;
        if RangeOf(value).Holds(n) {
          assert Within(value, RangeOf(value).low, RangeOf(value).high, n);
        }
      }
    } else {
      forall low, high | SpellsRange(value, low, high)
        ensures false
      {
        SpellsOnce(value, low, high);
      }
    }
  }

  lemma NumberSpells(n: int)
    ensures SpellsBound(DecInt(n), Some(n)) && ':' !in DecInt(n)
  {
    IntRoundTrip(n);
  }

  lemma SpelledRange(a: string, b: string, low: Option<int>, high: Option<int>, v: int)
    requires ':' !in a && SpellsBound(a, low) && SpellsBound(b, high) && (low.Some? || high.Some?)
    ensures var inside := (low.Some? ==> low.value <= v) && (high.Some? ==> v <= high.value);
            && (TestRange(a + [':'] + b, Some(DecInt(v)), false) == if inside then Accepted else Rejected)
            && (TestRange(a + [':'] + b, Some(DecInt(v)), true) == if inside then Rejected else Accepted)
  {
    var value := a + [':'] + b;
    assert SpellsSides(value, a, b);
    assert SpellsRange(value, low, high);
    SpellsOnce(value, low, high);
    IntRoundTrip(v);
    if IsBlank(DecInt(v)) {
      BlankIsNoNumber(DecInt(v));
    }
  }

  /** A closed range written out accepts the numbers in it; negated, the others. */
  lemma RangeBetween(a: int, b: int, v: int)
    ensures TestRange(DecInt(a) + [':'] + DecInt(b), Some(DecInt(v)), false)
            == if a <= v <= b then Accepted else Rejected
    ensures TestRange(DecInt(a) + [':'] + DecInt(b), Some(DecInt(v)), true)
            == if a <= v <= b then Rejected else Accepted
  {
    NumberSpells(a);
    NumberSpells(b);
    SpelledRange(DecInt(a), DecInt(b), Some(a), Some(b), v);
  }

  lemma RangeUpTo(b: int, v: int)
    ensures TestRange([':'] + DecInt(b), Some(DecInt(v)), false) == if v <= b then Accepted else Rejected
    ensures TestRange([':'] + DecInt(b), Some(DecInt(v)), true) == if v <= b then Rejected else Accepted
  {
    NumberSpells(b);
    SpelledRange("", DecInt(b), None, Some(b), v);
    assert "" + [':'] + DecInt(b) == [':'] + DecInt(b);
  }

  lemma RangeFrom(a: int, v: int)
    ensures TestRange(DecInt(a) + [':'], Some(DecInt(v)), false) == if a <= v then Accepted else Rejected
    ensures TestRange(DecInt(a) + [':'], Some(DecInt(v)), true) == if a <= v then Rejected else Accepted
  {
    NumberSpells(a);
    SpelledRange(DecInt(a), "", Some(a), None, v);
    assert DecInt(a) + [':'] + "" == DecInt(a) + [':'];
  }

  /** A list that was joined accepts exactly the values in it; negated, exactly the others. */
  lemma StrInCsvMeaning(values: seq<string>, v: string)
    requires values != [] && (forall x :: x in values ==> ',' !in x) && !IsBlank(Join(values, ','))
    ensures TestStrInCsv(Join(values, ','), Some(v), false) == if v in values then Accepted else Rejected
    ensures TestStrInCsv(Join(values, ','), Some(v), true) == if v in values then Rejected else Accepted
  {
    SplitJoin(values, ',');
  }

  /** The other answers: without a session value nobody, and a blank list everybody. */
  lemma StrInCsvOtherwise(value: string, sessionValue: Option<string>, negated: bool)
    ensures IsBlank(value) ==> TestStrInCsv(value, sessionValue, negated) == Accepted
    ensures !IsBlank(value) && sessionValue.None? ==> TestStrInCsv(value, sessionValue, negated) == Rejected
    ensures sessionValue.None? && !IsBlank(value) && RangeReadable(value)
            ==> TestRange(value, sessionValue, negated) == Rejected
  {
  }

  /** The list that `value` spells holds `x`. */
  ghost predicate ListHas(value: string, x: string) { exists values :: SpellsList(value, values) && x in values }

  ghost predicate SpellsList(value: string, values: seq<string>) {
    values != [] && (forall x :: x in values ==> ',' !in x) && value == Join(values, ',')
  }

  lemma ListHasIff(value: string, x: string)
    ensures ListHas(value, x) <==> x in Split(value, ',')
  {
    JoinSplit(value, ',');
    assert SpellsList(value, Split(value, ','));
    if values :| SpellsList(value, values) && x in values {
      SplitJoin(values, ',');
    }
  }

  /** What an ACL asks of a user, said without the validators: the value is the one set on the target. */
  ghost predicate Meets(v: Validator, value: string, sessionValue: Option<string>) {
    match v
    case Range => sessionValue.Some? && InRange(value, sessionValue.value)
    case StrInCsv(_) => IsBlank(value) || (sessionValue.Some? && ListHas(value, sessionValue.value))
    case Flag(holds) => holds
    case Disallow => false
    case Unusable => false
  }

  lemma ValidateMeets(v: Validator, value: string, sessionValue: Option<string>)
    ensures Validate(v, value, sessionValue, false).Accepted? <==> Meets(v, value, sessionValue)
  {
    if sessionValue.Some? {
      RangeDecides(value, sessionValue.value);
      ListHasIff(value, sessionValue.value);
    }
  }

  /** The validators that ask nothing of the session: a yes or no, negated the other, and nobody. */
  lemma OtherValidators(holds: bool, value: string, sessionValue: Option<string>, negated: bool)
    ensures Validate(Flag(holds), value, sessionValue, negated) == if holds != negated then Accepted else Rejected
    ensures Validate(Disallow, value, sessionValue, negated) == Rejected
    ensures Validate(Unusable, value, sessionValue, negated) == Raised
    ensures Validate(Range, value, sessionValue, negated) == TestRange(value, sessionValue, negated)
    ensures forall a :: Validate(StrInCsv(a), value, sessionValue, negated)
                        == TestStrInCsv(value, sessionValue, negated)
  {
  }

  // ----- What a clause means -----

  function Lookup(session: map<string, string>, key: string): Option<string> {
    if key in session then Some(session[key]) else None
  }

  lemma ClauseSides(name: string, value: string)
    requires '=' !in name && '=' !in value
    ensures Split(name + ['='] + value, '=') == [name, value] && '=' in name + ['='] + value
  {
    SplitAtFirst(name, value, '=');
    SplitWhole(value, '=');
  }

  /** `name=value` and `name=!value`, for a user and when they are stored. */
  lemma ClauseMeaning(validators: map<string, Validator>, session: map<string, string>, name: string, value: string)
    requires '=' !in name && '=' !in value && name in validators && name != "custom"
    ensures value != "" && value[0] != '!' ==>
              TestClause(validators, Acting(session), name + ['='] + value)
              == Validate(validators[name], value, Lookup(session, name), false)
    ensures TestClause(validators, Acting(session), name + ['='] + (['!'] + value))
            == Validate(validators[name], value, Lookup(session, name), true)
    ensures var unfit := validators[name].Unusable? || !NewValueOk(validators[name], value);
            var stored := if unfit then Raised else Accepted;
            && (value != "" && value[0] != '!' ==> TestClause(validators, Creating, name + ['='] + value) == stored)
            && TestClause(validators, Creating, name + ['='] + (['!'] + value)) == stored
    ensures forall mode :: TestClause(validators, mode, name + ['=']) == Crashed
  {
    ClauseSides(name, value);
    ClauseSides(name, ['!'] + value);
    ClauseSides(name, "");
    assert (['!'] + value)[1..] == value;
    assert name + ['='] + "" == name + ['='];
  }

  /** What raises a ValidationException, for a user or when stored. */
  lemma ClauseErrors(validators: map<string, Validator>, mode: Mode, name: string, value: string)
    requires '=' !in name && '=' !in value
    ensures name !in validators || name == "custom" ==> TestClause(validators, mode, name + ['='] + value) == Raised
    ensures TestClause(validators, mode, name) == Raised
    ensures forall more :: TestClause(validators, mode, name + ['='] + (value + ['='] + more)) == Raised
  {
    ClauseSides(name, value);
    forall more
      ensures TestClause(validators, mode, name + ['='] + (value + ['='] + more)) == Raised
    {
      SplitAtFirst(name, value + ['='] + more, '=');
      SplitAtFirst(value, more, '=');
    }
  }

  // ----- What may be stored -----

  /** A number with an optional sign. */
  lemma IsNumberIff(s: string)
    ensures IsNumber(s)
            <==> exists d: string :: d != "" && IsDigits(d) && (s == d || s == ['-'] + d || s == ['+'] + d)
  {
    if IsNumber(s) {
      var d := if s[0] in ['-', '+'] then s[1..] else s;
      assert d != "" && IsDigits(d) && (s == d || s == [s[0]] + d);
    }
    if d: string :| d != "" && IsDigits(d) && (s == d || s == ['-'] + d || s == ['+'] + d) {
      assert IsDigit(d[0]);
      assert s != d ==> s[1..] == d;
    }
  }

  /** A range may be stored if each side is empty or a number. */
  lemma NewRangeIff(a: string, b: string)
    requires ':' !in a
    ensures NewValueOk(Range, a + [':'] + b) <==> (a == "" || IsNumber(a)) && (b == "" || IsNumber(b))
  {
    CutAtFirst(a, ':', b);
    var value := a + [':'] + b;
    assert value[|a|] == ':' && value[|a|] in value && !IsSpace(':');
  }

  /** What is no range may not. A list may be stored if all its values are among the configured ones. */
  lemma NewListIff(allowed: seq<string>, values: seq<string>, value: string)
    requires values != [] && (forall x :: x in values ==> ',' !in x)
    ensures NewValueOk(StrInCsv(Some(allowed)), Join(values, ','))
            <==> IsBlank(Join(values, ',')) || forall x :: x in values ==> x in allowed
    ensures NewValueOk(StrInCsv(None), value)
    ensures ':' !in value ==> !NewValueOk(Range, value)
    ensures forall v: Validator :: !v.Range? && !v.StrInCsv? ==> NewValueOk(v, value)
  {
    SplitJoin(values, ',');
  }

  lemma NumberParses(s: string)
    requires IsNumber(s)
    ensures ParseInt(s).Some?
  {
    var digits := if s[0] in ['-', '+'] then s[1..] else s;
    DigitsParse(digits);
    assert IsDigit(digits[0]) && IsDigit(digits[|digits| - 1]);
    TrimNothing(s);
  }

  lemma StoredRangeReadable(value: string)
    requires NewValueOk(Range, value)
    ensures RangeReadable(value)
  {
    var i := IndexOf(value, ':');
    if i != 0 {
      NumberParses(value[..i]);
    }
    if i + 1 != |value| {
      NumberParses(value[i + 1..]);
    }
  }

  /** A clause that passes when a rule is stored can be evaluated for every user later. */
  lemma StoredClauseIsWellFormed(validators: map<string, Validator>, clause: string)
    requires TestClause(validators, Creating, clause).Accepted?
    ensures WellFormedClause(validators, clause)
  {
    var sides := Split(clause, '=');
    var plain := if sides[1][0] == '!' then sides[1][1..] else sides[1];
    if validators[sides[0]].Range? {
      StoredRangeReadable(plain);
    }
  }
}
